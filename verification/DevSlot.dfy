/**
 The character-driver linkage: registered majors, the keys open on each, and the
 holds that keep a driver's module in.  Opens and closes are in two steps, with
 anything else happening while the driver's own entry runs.  A driver's open
 leaves the major alone.
 */
module DevSlot {
  import opened Basics

  const CDEV_NOPEN := 32
  const OTYP_LYR := 4

  datatype Error = ECONFIG | EEXIST | ENXIO | EINVAL | ENOMEM

  // a device and how it is open
  datatype Key = Key(major: nat, minor: nat, otyp: nat)

  // a registered major; keys are cs_set[0 .. cs_nopen)
  datatype Slot = Slot(name: string, major: nat, owner: Option<nat>, keys: seq<Key>)

  // a call into the driver of module m under way at a major
  datatype Use = Use(major: nat, m: nat)

  // holds that no key accounts for: layered opens, opens beyond the table, and everybody else's
  datatype Tally = Tally(layered: nat, stuck: nat, other: nat)

  // the keys open, as the kernel sees them; those of them opened while a close of the same key was in the
  // driver; and those whose hold stays for good
  datatype Desk = Desk(live: set<Key>, torn: set<Key>, stuck: set<Key>)

  // ----- counting

  function Own(s: Slot, m: nat): nat {
    if s.owner == Some(m) then |s.keys| else 0
  }

  function Keys(slots: seq<Slot>, m: nat): nat {
    if slots == [] then 0 else Own(slots[0], m) + Keys(slots[1..], m)
  }

  function Uses(us: seq<Use>, m: nat): nat {
    if us == [] then 0 else (if us[0].m == m then 1 else 0) + Uses(us[1..], m)
  }

  lemma {:induction false} KeysUpdate(slots: seq<Slot>, i: nat, s: Slot, m: nat)
    requires i < |slots|
    ensures Keys(slots[i := s], m) + Own(slots[i], m) == Keys(slots, m) + Own(s, m)
  {
    if i > 0 {
      assert slots[i := s][1..] == slots[1..][i - 1 := s];
      KeysUpdate(slots[1..], i - 1, s, m);
    } else {
      assert slots[i := s][1..] == slots[1..];
    }
  }

  lemma {:induction false} KeysAt(slots: seq<Slot>, i: nat, m: nat)
    requires i < |slots|
    ensures Keys(slots, m) >= Own(slots[i], m)
  {
    if i > 0 {
      KeysAt(slots[1..], i - 1, m);
    }
  }

  lemma {:induction false} UsesDrop(us: seq<Use>, j: nat, m: nat)
    requires j < |us|
    ensures Uses(us[..j] + us[j + 1..], m) + (if us[j].m == m then 1 else 0) == Uses(us, m)
  {
    if j > 0 {
      assert (us[..j] + us[j + 1..])[1..] == us[1..][..j - 1] + us[1..][j..];
      UsesDrop(us[1..], j - 1, m);
    } else {
      assert us[..j] + us[j + 1..] == us[1..];
    }
  }

  lemma {:induction false} UsesIn(us: seq<Use>, j: nat)
    requires j < |us|
    ensures Uses(us, us[j].m) > 0
  {
    if j > 0 {
      UsesIn(us[1..], j - 1);
    }
  }

  function Get<V>(t: map<nat, V>, m: nat, d: V): V {
    if m in t then t[m] else d
  }

  // ----- the invariant

  // no key twice, and each of the slot's own major
  ghost predicate SlotOk(s: Slot) {
    && |s.keys| <= CDEV_NOPEN && (s.owner.None? ==> s.keys == [])
    && (forall i | 0 <= i < |s.keys| :: s.keys[i].major == s.major && s.keys[i].otyp != OTYP_LYR)
    && (forall i, j | 0 <= i < j < |s.keys| :: s.keys[i] != s.keys[j])
  }

  ghost predicate SlotsOk(slots: seq<Slot>) {
    && (forall i | 0 <= i < |slots| :: SlotOk(slots[i]))
    && (forall i, j | 0 <= i < j < |slots| :: slots[i].major != slots[j].major)
  }

  // the slot of a call under way still has its module
  ghost predicate InUse(slots: seq<Slot>, us: seq<Use>) {
    forall j | 0 <= j < |us| :: Owned(slots, us[j])
  }

  ghost predicate Owned(slots: seq<Slot>, u: Use) {
    exists i | 0 <= i < |slots| :: slots[i].major == u.major && slots[i].owner == Some(u.m)
  }

  // everything the linkage keeps; opening and closing are the calls under way
  datatype Book = Book(
    slots: seq<Slot>, opening: seq<Use>, closing: seq<Use>,
    refs: map<nat, nat>, incall: map<nat, nat>, tally: map<nat, Tally>)
  {
    function Refs(m: nat): nat {
      Get(refs, m, 0)
    }

    function Calls(m: nat): nat {
      Get(incall, m, 0)
    }

    function Tallied(m: nat): Tally {
      Get(tally, m, Tally(0, 0, 0))
    }
  }

  // a module's holds are its recorded keys, the opens under way, the layered opens and the rest
  ghost predicate Counted(b: Book, m: nat) {
    && b.Refs(m) == Keys(b.slots, m) + Uses(b.opening, m)
         + b.Tallied(m).layered + b.Tallied(m).stuck + b.Tallied(m).other
    && b.Calls(m) == Uses(b.closing, m)
  }

  ghost predicate Ok(b: Book) {
    && SlotsOk(b.slots) && InUse(b.slots, b.opening) && InUse(b.slots, b.closing)
    && forall m: nat :: Counted(b, m)
  }

  // nothing about module m differs
  ghost predicate Same(b: Book, b': Book, m: nat) {
    && b'.Refs(m) == b.Refs(m) && b'.Calls(m) == b.Calls(m) && b'.Tallied(m) == b.Tallied(m)
    && Keys(b'.slots, m) == Keys(b.slots, m) && Uses(b'.opening, m) == Uses(b.opening, m)
    && Uses(b'.closing, m) == Uses(b.closing, m)
  }

  lemma Recount(b: Book, b': Book, m0: nat)
    requires Ok(b) && Counted(b', m0) && forall m: nat | m != m0 :: Same(b, b', m)
    ensures forall m: nat :: Counted(b', m)
  {
    forall m: nat ensures Counted(b', m) {
      assert Counted(b, m) && (m != m0 ==> Same(b, b', m));
    }
  }

  /** A module with a key open, or a call into its driver under way, is held: an unload is refused. */
  lemma OpenIsHeld(b: Book, m: nat)
    requires Ok(b)
    requires (exists i | 0 <= i < |b.slots| :: b.slots[i].owner == Some(m) && b.slots[i].keys != [])
      || (exists j | 0 <= j < |b.opening| :: b.opening[j].m == m)
      || (exists j | 0 <= j < |b.closing| :: b.closing[j].m == m)
    ensures b.Refs(m) > 0 || b.Calls(m) > 0
  {
    assert Counted(b, m);
    if i :| 0 <= i < |b.slots| && b.slots[i].owner == Some(m) && b.slots[i].keys != [] {
      KeysAt(b.slots, i, m);
    } else if j :| 0 <= j < |b.opening| && b.opening[j].m == m {
      UsesIn(b.opening, j);
    } else {
      var j :| 0 <= j < |b.closing| && b.closing[j].m == m;
      UsesIn(b.closing, j);
    }
  }

  // ----- which open keys hold their module

  ghost predicate Recorded(slots: seq<Slot>, key: Key) {
    exists i :: 0 <= i < |slots| && key in slots[i].keys
  }

  // a hold of the key's module stays for good
  ghost predicate Stuck(b: Book, key: Key) {
    exists m: nat :: Owned(b.slots, Use(key.major, m)) && b.Tallied(m).stuck > 0
  }

  // an open key is recorded or stuck, but for one opened while its own close was in the driver: that one
  // is not recorded once the close is over; dying are the keys of the closes under way
  ghost predicate DeskOk(b: Book, d: Desk, dying: seq<Key>) {
    && |dying| == |b.closing| && (forall j | 0 <= j < |dying| :: dying[j].major == b.closing[j].major)
    && d.torn <= d.live && (forall key | key in d.live :: KeyOk(b, d, dying, key))
    && forall key | key in d.stuck :: Stuck(b, key)
  }

  ghost predicate KeyOk(b: Book, d: Desk, dying: seq<Key>, key: Key) {
    if key in dying then key in d.torn
    else if key in d.torn then !Recorded(b.slots, key)
    else Recorded(b.slots, key) || key in d.stuck
  }

  // something of the key's own holds its module: its record, its hold for good, or its close under way
  ghost predicate HeldBy(b: Book, d: Desk, dying: seq<Key>, key: Key) {
    Recorded(b.slots, key) || key in d.stuck || key in dying
  }

  // the module of the key's major has a hold or a call, so no unload takes it
  ghost predicate Pinned(b: Book, key: Key) {
    exists m: nat :: Owned(b.slots, Use(key.major, m)) && (b.Refs(m) > 0 || b.Calls(m) > 0)
  }

  /** An open key holds its module if and only if it was not opened while its own close was in the driver,
      or that close is still there, or its hold stays for good; and what it holds cannot be unloaded. */
  lemma OpenHolds(b: Book, d: Desk, dying: seq<Key>, key: Key)
    requires Ok(b) && DeskOk(b, d, dying) && key in d.live
    ensures HeldBy(b, d, dying, key) <==> key !in d.torn || key in dying || key in d.stuck
    ensures HeldBy(b, d, dying, key) ==> Pinned(b, key)
  {
    hide SlotOk, Counted;
    assert KeyOk(b, d, dying, key);
    if key in d.stuck {
      var m: nat :| Owned(b.slots, Use(key.major, m)) && b.Tallied(m).stuck > 0;
      StuckHeld(b, m);
    } else if key in dying {
      var j :| 0 <= j < |dying| && dying[j] == key;
      BusyUse(b, b.closing, j);
      assert Owned(b.slots, Use(key.major, b.closing[j].m));
    } else if Recorded(b.slots, key) {
      RecordedPins(b, key);
    }
  }

  lemma RecordedPins(b: Book, key: Key)
    requires Ok(b) && Recorded(b.slots, key)
    ensures Pinned(b, key)
  {
    var i :| 0 <= i < |b.slots| && key in b.slots[i].keys;
    var m := b.slots[i].owner.value;
    KeyHeld(b, i, m);
    assert Owned(b.slots, Use(key.major, m));
  }

  lemma StuckHeld(b: Book, m: nat)
    requires Ok(b) && b.Tallied(m).stuck > 0
    ensures b.Refs(m) > 0
  {
    assert Counted(b, m);
  }

  // the keys recorded are the same, each slot with a module has it still, and no call begins or ends
  ghost predicate Akin(b: Book, b': Book) {
    && b'.closing == b.closing
    && (forall key :: Recorded(b'.slots, key) <==> Recorded(b.slots, key))
    && (forall u :: Owned(b.slots, u) ==> Owned(b'.slots, u))
    && forall m: nat :: b'.Tallied(m).stuck >= b.Tallied(m).stuck
  }

  lemma DeskKeeps(b: Book, b': Book, d: Desk, dying: seq<Key>)
    requires DeskOk(b, d, dying) && Akin(b, b')
    ensures DeskOk(b', d, dying)
  {
    hide Recorded, Owned;
    forall key | key in d.live ensures KeyOk(b', d, dying, key) {
      assert KeyOk(b, d, dying, key);
    }
  }

  // slots that keep their keys and their modules
  lemma SlotsAkin(b: Book, b': Book)
    requires b'.closing == b.closing && forall m: nat :: b'.Tallied(m).stuck >= b.Tallied(m).stuck
    requires |b'.slots| == |b.slots| && forall i | 0 <= i < |b.slots| :: KeptSlot(b.slots[i], b'.slots[i])
    ensures Akin(b, b')
  {
    forall u | Owned(b.slots, u) ensures Owned(b'.slots, u) {
      var i :| 0 <= i < |b.slots| && b.slots[i].major == u.major && b.slots[i].owner == Some(u.m);
      assert KeptSlot(b.slots[i], b'.slots[i]);
    }
    forall key ensures Recorded(b'.slots, key) <==> Recorded(b.slots, key) {
      if i :| 0 <= i < |b.slots| && key in b.slots[i].keys {
        assert KeptSlot(b.slots[i], b'.slots[i]);
      }
      if i :| 0 <= i < |b.slots| && key in b'.slots[i].keys {
        assert KeptSlot(b.slots[i], b'.slots[i]);
      }
    }
  }

  ghost predicate KeptSlot(s: Slot, s': Slot) {
    s'.keys == s.keys && s'.major == s.major && (s.owner.Some? ==> s'.owner == s.owner)
  }

  lemma NewAkin(b: Book, fr: Slot)
    requires fr.keys == []
    ensures Akin(b, b.(slots := [fr] + b.slots))
  {
    var more := [fr] + b.slots;
    forall u | Owned(b.slots, u) ensures Owned(more, u) {
      var i :| 0 <= i < |b.slots| && b.slots[i].major == u.major && b.slots[i].owner == Some(u.m);
      assert more[i + 1] == b.slots[i];
    }
    forall key ensures Recorded(more, key) <==> Recorded(b.slots, key) {
      if i :| 0 <= i < |b.slots| && key in b.slots[i].keys {
        assert more[i + 1] == b.slots[i];
      }
    }
  }

  // an open that worked: torn if a close of its key is in the driver, and whole again if none is
  function Opened(d: Desk, dying: seq<Key>, key: Key): Desk {
    d.(live := d.live + {key}, torn := if key in dying then d.torn + {key} else d.torn - {key})
  }

  lemma OpenedDesk(b: Book, b': Book, d: Desk, d': Desk, dying: seq<Key>, key: Key)
    requires DeskOk(b, d, dying) && b'.closing == b.closing
    requires forall u :: Owned(b.slots, u) ==> Owned(b'.slots, u)
    requires forall m: nat :: b'.Tallied(m).stuck >= b.Tallied(m).stuck
    requires forall x | x != key :: Recorded(b'.slots, x) <==> Recorded(b.slots, x)
    requires d' == Opened(d, dying, key) || (d' == Opened(d, dying, key).(stuck := d.stuck + {key}) && Stuck(b', key))
    requires Recorded(b'.slots, key) || key in d'.stuck
    ensures DeskOk(b', d', dying)
  {
    hide Recorded, Owned;
    forall x | x in d'.live ensures KeyOk(b', d', dying, x) {
      if x != key {
        assert KeyOk(b, d, dying, x);
      }
    }
  }

  // a close begins: its key is no longer open
  function Closed(d: Desk, key: Key): Desk {
    d.(live := d.live - {key}, torn := d.torn - {key})
  }

  lemma ClosedDesk(b: Book, b': Book, d: Desk, dying: seq<Key>, key: Key)
    requires DeskOk(b, d, dying) && b'.slots == b.slots && b'.tally == b.tally
    ensures b'.closing == b.closing ==> DeskOk(b', Closed(d, key), dying)
    ensures (exists m :: b'.closing == [Use(key.major, m)] + b.closing) ==> DeskOk(b', Closed(d, key), [key] + dying)
  {
    hide Recorded, Owned;
    forall x | x in d.live && x != key
      ensures KeyOk(b', Closed(d, key), dying, x) && KeyOk(b', Closed(d, key), [key] + dying, x)
    {
      assert KeyOk(b, d, dying, x);
    }
    forall x | x in d.stuck ensures Stuck(b', x) {
      var m: nat :| Owned(b.slots, Use(x.major, m)) && b.Tallied(m).stuck > 0;
      assert b'.Tallied(m) == b.Tallied(m);
    }
  }

  // the close of number j ends, and its key is not recorded any more
  lemma EndedDesk(b: Book, b': Book, d: Desk, dying: seq<Key>, j: nat)
    requires DeskOk(b, d, dying) && j < |dying| && b'.closing == Less(b.closing, j)
    requires forall u :: Owned(b.slots, u) ==> Owned(b'.slots, u)
    requires forall m: nat :: b'.Tallied(m).stuck >= b.Tallied(m).stuck
    requires forall x | x != dying[j] :: Recorded(b'.slots, x) <==> Recorded(b.slots, x)
    requires !Recorded(b'.slots, dying[j])
    ensures DeskOk(b', d, Less(dying, j))
  {
    hide Recorded, Owned;
    var key := dying[j];
    forall x | x in d.live ensures KeyOk(b', d, Less(dying, j), x) {
      assert KeyOk(b, d, dying, x);
      LessKeys(dying, j, x);
    }
  }

  lemma LessKeys(dying: seq<Key>, j: nat, x: Key)
    requires j < |dying|
    ensures x in Less(dying, j) ==> x in dying
    ensures x != dying[j] ==> (x in Less(dying, j) <==> x in dying)
  {
    if x in dying && x != dying[j] {
      var i :| 0 <= i < |dying| && dying[i] == x;
      assert Less(dying, j)[if i < j then i else i - 1] == x;
    }
  }

  // ----- what each step does to the books

  // a hold for a call under way, or for somebody else
  lemma HoldKeeps(b: Book, b': Book, m: nat)
    requires Ok(b) && b' == b.(refs := b.refs[m := b.Refs(m) + 1],
                               tally := b.tally[m := b.Tallied(m).(other := b.Tallied(m).other + 1)])
    ensures Ok(b')
  {
    assert Counted(b, m);
    Recount(b, b', m);
  }

  lemma ReleKeeps(b: Book, b': Book, m: nat)
    requires Ok(b) && b.Tallied(m).other > 0 && b.Refs(m) > 0
    requires b' == b.(refs := b.refs[m := b.Refs(m) - 1],
                      tally := b.tally[m := b.Tallied(m).(other := b.Tallied(m).other - 1)])
    ensures Ok(b')
  {
    assert Counted(b, m);
    Recount(b, b', m);
  }

  lemma OtherHeld(b: Book, m: nat)
    requires Ok(b)
    ensures b.Refs(m) >= b.Tallied(m).layered + b.Tallied(m).other
  {
    assert Counted(b, m);
  }

  lemma NewSlot(b: Book, fr: Slot)
    requires Ok(b) && fr.owner.None? && fr.keys == [] && forall k | 0 <= k < |b.slots| :: b.slots[k].major != fr.major
    ensures Ok(b.(slots := [fr] + b.slots))
  {
    var more := [fr] + b.slots;
    assert more[1..] == b.slots;
    forall u | Owned(b.slots, u) ensures Owned(more, u) {
      var i :| 0 <= i < |b.slots| && b.slots[i].major == u.major && b.slots[i].owner == Some(u.m);
      assert more[i + 1] == b.slots[i];
    }
    forall m: nat ensures Counted(b.(slots := more), m) {
      assert Counted(b, m);
    }
  }

  // a slot given to a module, or kept
  lemma GiveKeeps(b: Book, i: nat, m: nat)
    requires Ok(b) && i < |b.slots| && (b.slots[i].owner.None? || b.slots[i].owner == Some(m))
    ensures Ok(b.(slots := b.slots[i := b.slots[i].(owner := Some(m))]))
  {
    var s := b.slots[i].(owner := Some(m));
    var b' := b.(slots := b.slots[i := s]);
    SlotSwap(b.slots, i, s);
    forall n: nat ensures Counted(b', n) {
      assert Counted(b, n);
      KeysUpdate(b.slots, i, s, n);
    }
  }

  // one slot replaced by one of the same major that a call under way may still use
  lemma SlotSwap(slots: seq<Slot>, i: nat, s: Slot)
    requires i < |slots| && SlotsOk(slots) && SlotOk(s) && s.major == slots[i].major
    requires slots[i].owner.Some? ==> s.owner == slots[i].owner
    ensures SlotsOk(slots[i := s]) && forall u :: Owned(slots, u) ==> Owned(slots[i := s], u)
  {
    forall u | Owned(slots, u) ensures Owned(slots[i := s], u) {
      var k :| 0 <= k < |slots| && slots[k].major == u.major && slots[k].owner == Some(u.m);
      assert slots[i := s][k].major == u.major && slots[i := s][k].owner == Some(u.m);
    }
  }

  lemma OpenKeeps(b: Book, b': Book, u: Use)
    requires Ok(b) && Owned(b.slots, u)
    requires b' == b.(refs := b.refs[u.m := b.Refs(u.m) + 1], opening := [u] + b.opening)
    ensures Ok(b')
  {
    assert ([u] + b.opening)[1..] == b.opening;
    assert Counted(b, u.m);
    Recount(b, b', u.m);
  }

  lemma CallKeeps(b: Book, b': Book, u: Use)
    requires Ok(b) && Owned(b.slots, u)
    requires b' == b.(incall := b.incall[u.m := b.Calls(u.m) + 1], closing := [u] + b.closing)
    ensures Ok(b')
  {
    assert ([u] + b.closing)[1..] == b.closing;
    assert Counted(b, u.m);
    Recount(b, b', u.m);
  }

  // the calls under way without number j
  function Less<T>(us: seq<T>, j: nat): seq<T>
    requires j < |us|
  {
    us[..j] + us[j + 1..]
  }

  lemma {:induction false} LessUse(slots: seq<Slot>, us: seq<Use>, j: nat)
    requires j < |us| && InUse(slots, us)
    ensures InUse(slots, Less(us, j)) && Owned(slots, us[j])
    ensures forall m :: Uses(Less(us, j), m) + (if us[j].m == m then 1 else 0) == Uses(us, m)
  {
    hide Owned, Uses;
    forall m ensures Uses(Less(us, j), m) + (if us[j].m == m then 1 else 0) == Uses(us, m) {
      UsesDrop(us, j, m);
    }
    forall k | 0 <= k < |Less(us, j)| ensures Owned(slots, Less(us, j)[k]) {
      assert Less(us, j)[k] == if k < j then us[k] else us[k + 1];
    }
  }

  // an open ends and its hold goes
  lemma OpenGone(b: Book, b': Book, j: nat)
    requires Ok(b) && j < |b.opening| && b.Refs(b.opening[j].m) > 0
    requires var m := b.opening[j].m; b' == b.(refs := b.refs[m := b.Refs(m) - 1], opening := Less(b.opening, j))
    ensures Ok(b')
  {
    LessUse(b.slots, b.opening, j);
    assert Counted(b, b.opening[j].m);
    Recount(b, b', b.opening[j].m);
  }

  // an open ends and its hold stays, with no key for it
  lemma OpenStays(b: Book, b': Book, j: nat, t: Tally)
    requires Ok(b) && j < |b.opening|
    requires var m := b.opening[j].m;
      && (|| t == b.Tallied(m).(layered := b.Tallied(m).layered + 1)
          || t == b.Tallied(m).(stuck := b.Tallied(m).stuck + 1))
      && b' == b.(tally := b.tally[m := t], opening := Less(b.opening, j))
    ensures Ok(b')
  {
    LessUse(b.slots, b.opening, j);
    assert Counted(b, b.opening[j].m);
    Recount(b, b', b.opening[j].m);
  }

  lemma KeyAdded(slots: seq<Slot>, i: nat, key: Key)
    requires SlotsOk(slots) && i < |slots| && slots[i].owner.Some? && |slots[i].keys| < CDEV_NOPEN
    requires key !in slots[i].keys && key.major == slots[i].major && key.otyp != OTYP_LYR
    ensures SlotOk(slots[i].(keys := slots[i].keys + [key]))
  {
  }

  lemma KeyDropped(slots: seq<Slot>, i: nat, k: nat)
    requires SlotsOk(slots) && i < |slots| && k < |slots[i].keys|
    ensures var keys := slots[i].keys; SlotOk(slots[i].(keys := keys[k := keys[|keys|-1]][..|keys|-1]))
  {
  }

  // an open ends and its hold becomes the key's
  lemma OpenRecorded(b: Book, b': Book, j: nat, i: nat, key: Key)
    requires Ok(b) && j < |b.opening| && i < |b.slots| && b.slots[i].owner == Some(b.opening[j].m)
    requires |b.slots[i].keys| < CDEV_NOPEN && key !in b.slots[i].keys
    requires key.major == b.slots[i].major && key.otyp != OTYP_LYR
    requires b' == b.(slots := b.slots[i := b.slots[i].(keys := b.slots[i].keys + [key])],
                      opening := Less(b.opening, j))
    ensures Ok(b')
  {
    hide SlotOk, SlotsOk, Owned;
    var m, s := b.opening[j].m, b.slots[i].(keys := b.slots[i].keys + [key]);
    KeyAdded(b.slots, i, key);
    LessUse(b.slots, b.opening, j);
    SlotSwap(b.slots, i, s);
    assert Counted(b, m);
    forall n: nat ensures Keys(b'.slots, n) + Own(b.slots[i], n) == Keys(b.slots, n) + Own(s, n) {
      KeysUpdate(b.slots, i, s, n);
    }
    Recount(b, b', m);
  }

  // a close ends; its key, if recorded, and the key's hold go
  lemma CloseForgets(b: Book, b': Book, j: nat, i: nat, k: nat)
    requires Ok(b) && j < |b.closing| && i < |b.slots| && k < |b.slots[i].keys|
    requires b.slots[i].owner == Some(b.closing[j].m)
    requires var m := b.closing[j].m; b.Refs(m) > 0 && b.Calls(m) > 0
    requires var m, keys := b.closing[j].m, b.slots[i].keys;
      b' == b.(slots := b.slots[i := b.slots[i].(keys := keys[k := keys[|keys|-1]][..|keys|-1])],
               refs := b.refs[m := b.Refs(m) - 1], incall := b.incall[m := b.Calls(m) - 1],
               closing := Less(b.closing, j))
    ensures Ok(b')
  {
    hide SlotOk, SlotsOk, Owned;
    var m, s := b.closing[j].m, b'.slots[i];
    KeyDropped(b.slots, i, k);
    LessUse(b.slots, b.closing, j);
    SlotSwap(b.slots, i, s);
    assert Counted(b, m);
    forall n: nat ensures Keys(b'.slots, n) + Own(b.slots[i], n) == Keys(b.slots, n) + Own(s, n) {
      KeysUpdate(b.slots, i, s, n);
    }
    Recount(b, b', m);
  }

  lemma CloseEnds(b: Book, b': Book, j: nat)
    requires Ok(b) && j < |b.closing| && b.Calls(b.closing[j].m) > 0
    requires var m := b.closing[j].m;
      b' == b.(incall := b.incall[m := b.Calls(m) - 1], closing := Less(b.closing, j))
    ensures Ok(b')
  {
    LessUse(b.slots, b.closing, j);
    assert Counted(b, b.closing[j].m);
    Recount(b, b', b.closing[j].m);
  }

  lemma CloseLayered(b: Book, b': Book, j: nat)
    requires Ok(b) && j < |b.closing|
    requires var m := b.closing[j].m;
      && b.Calls(m) > 0 && b.Refs(m) > 0 && b.Tallied(m).layered > 0
      && b' == b.(incall := b.incall[m := b.Calls(m) - 1], closing := Less(b.closing, j),
                  refs := b.refs[m := b.Refs(m) - 1],
                  tally := b.tally[m := b.Tallied(m).(layered := b.Tallied(m).layered - 1)])
    ensures Ok(b')
  {
    LessUse(b.slots, b.closing, j);
    assert Counted(b, b.closing[j].m);
    Recount(b, b', b.closing[j].m);
  }

  // a slot taken from a module that nothing holds
  lemma TakeKeeps(b: Book, i: nat, m: nat)
    requires Ok(b) && i < |b.slots| && b.slots[i].owner == Some(m) && b.Refs(m) == 0 && b.Calls(m) == 0
    ensures b.slots[i].keys == []
    ensures Ok(b.(slots := b.slots[i := b.slots[i].(owner := None, keys := [])]))
  {
    var s := b.slots[i].(owner := None, keys := []);
    var more := b.slots[i := s];
    assert Counted(b, m);
    KeysAt(b.slots, i, m);
    forall u | Owned(b.slots, u) && u.m != m ensures Owned(more, u) {
      var k :| 0 <= k < |b.slots| && b.slots[k].major == u.major && b.slots[k].owner == Some(u.m);
      assert more[k] == b.slots[k];
    }
    forall j | 0 <= j < |b.opening| ensures Owned(more, b.opening[j]) {
      UsesIn(b.opening, j);
    }
    forall j | 0 <= j < |b.closing| ensures Owned(more, b.closing[j]) {
      UsesIn(b.closing, j);
    }
    forall n: nat ensures Counted(b.(slots := more), n) {
      assert Counted(b, n);
      KeysUpdate(b.slots, i, s, n);
    }
  }

  // the slot of a module that nothing holds, taken: no open key's record or hold goes with it
  lemma TakenDesk(b: Book, i: nat, m: nat, d: Desk, dying: seq<Key>)
    requires Ok(b) && i < |b.slots| && b.slots[i].owner == Some(m) && b.Refs(m) == 0 && b.Calls(m) == 0
    requires DeskOk(b, d, dying)
    ensures DeskOk(b.(slots := b.slots[i := b.slots[i].(owner := None, keys := [])]), d, dying)
  {
    TakeKeeps(b, i, m);
    var b' := b.(slots := b.slots[i := b.slots[i].(owner := None, keys := [])]);
    SameKeys(b.slots, b'.slots);
    forall key | key in d.live ensures KeyOk(b', d, dying, key) {
      assert KeyOk(b, d, dying, key);
    }
    forall key | key in d.stuck ensures Stuck(b', key) {
      var n: nat :| Owned(b.slots, Use(key.major, n)) && b.Tallied(n).stuck > 0;
      StuckHeld(b, n);
      var k :| 0 <= k < |b.slots| && b.slots[k].major == key.major && b.slots[k].owner == Some(n);
      assert b'.slots[k] == b.slots[k];
      assert Owned(b'.slots, Use(key.major, n)) && b'.Tallied(n).stuck > 0;
    }
  }

  lemma SameKeys(slots: seq<Slot>, slots': seq<Slot>)
    requires |slots'| == |slots| && forall i | 0 <= i < |slots| :: slots'[i].keys == slots[i].keys
    ensures forall key :: Recorded(slots', key) <==> Recorded(slots, key)
  {
    forall key ensures Recorded(slots', key) <==> Recorded(slots, key) {
      if i :| 0 <= i < |slots| && key in slots[i].keys {
        assert key in slots'[i].keys;
      }
      if i :| 0 <= i < |slots| && key in slots'[i].keys {
        assert key in slots[i].keys;
      }
    }
  }

  // the module that owns a major is the only one, and it pins the key
  lemma OnlyOwner(b: Book, key: Key, m: nat)
    requires Ok(b) && Owned(b.slots, Use(key.major, m)) && b.Refs(m) == 0 && b.Calls(m) == 0
    ensures !Pinned(b, key)
  {
  }

  lemma MoreRecorded(slots: seq<Slot>, slots': seq<Slot>, i: nat, key: Key)
    requires i < |slots| && slots' == slots[i := slots[i].(keys := slots[i].keys + [key])]
    ensures Recorded(slots', key) && forall x | x != key :: Recorded(slots', x) <==> Recorded(slots, x)
    ensures forall u :: Owned(slots, u) ==> Owned(slots', u)
  {
    assert key in slots'[i].keys;
    forall x | x != key ensures Recorded(slots', x) <==> Recorded(slots, x) {
      assert x in slots'[i].keys <==> x in slots[i].keys;
      if k :| 0 <= k < |slots| && x in slots[k].keys {
        assert x in slots'[k].keys;
      }
    }
    SwapOwned(slots, slots', i);
  }

  lemma LessRecorded(slots: seq<Slot>, slots': seq<Slot>, i: nat, key: Key)
    requires SlotsOk(slots) && i < |slots| == |slots'| && key in slots[i].keys
    requires slots' == slots[i := slots[i].(keys := slots'[i].keys)]
    requires forall x :: x in slots'[i].keys <==> x in slots[i].keys && x != key
    ensures !Recorded(slots', key) && forall x | x != key :: Recorded(slots', x) <==> Recorded(slots, x)
    ensures forall u :: Owned(slots, u) ==> Owned(slots', u)
  {
    forall k | 0 <= k < |slots'| ensures key !in slots'[k].keys {
    }
    forall x | x != key ensures Recorded(slots', x) <==> Recorded(slots, x) {
      if k :| 0 <= k < |slots| && x in slots[k].keys {
        assert x in slots'[k].keys;
      }
    }
    SwapOwned(slots, slots', i);
  }

  lemma SwapOwned(slots: seq<Slot>, slots': seq<Slot>, i: nat)
    requires i < |slots| == |slots'| && slots' == slots[i := slots'[i]]
    requires slots'[i].major == slots[i].major && slots'[i].owner == slots[i].owner
    ensures forall u :: Owned(slots, u) ==> Owned(slots', u)
  {
    forall u | Owned(slots, u) ensures Owned(slots', u) {
      var k :| 0 <= k < |slots| && slots[k].major == u.major && slots[k].owner == Some(u.m);
      assert slots'[k].major == u.major && slots'[k].owner == Some(u.m);
    }
  }

  lemma NotRecorded(b: Book, i: nat, key: Key)
    requires SlotsOk(b.slots) && i < |b.slots| && b.slots[i].major == key.major && key !in b.slots[i].keys
    ensures !Recorded(b.slots, key)
  {
  }

  lemma NeverLayered(b: Book, key: Key)
    requires SlotsOk(b.slots) && key.otyp == OTYP_LYR
    ensures !Recorded(b.slots, key)
  {
  }

  lemma SlotsKeep(b: Book, b': Book)
    requires b'.slots == b.slots
    ensures forall u :: Owned(b.slots, u) ==> Owned(b'.slots, u)
  {
  }

  // a hold taken away that the books do not know
  lemma Uncounted(b: Book, b': Book, j: nat)
    requires Ok(b) && j < |b.closing| && b.Refs(b.closing[j].m) > 0 && b.Calls(b.closing[j].m) > 0
    requires var m := b.closing[j].m;
      b' == b.(incall := b.incall[m := b.Calls(m) - 1], closing := Less(b.closing, j),
               refs := b.refs[m := b.Refs(m) - 1])
    ensures !Ok(b')
  {
    assert Counted(b, b.closing[j].m);
    assert !Counted(b', b.closing[j].m);
  }

  lemma OneKey(b: Book, i: nat)
    requires Ok(b) && i < |b.slots| && |b.slots[i].keys| == 1
    ensures b.slots[i].keys[0].major == b.slots[i].major && b.slots[i].keys[0].otyp != OTYP_LYR
  {
  }

  // an open or close under way finds its slot with its module
  lemma UseSlot(slots: seq<Slot>, u: Use, i: nat)
    requires SlotsOk(slots) && Owned(slots, u) && i < |slots| && slots[i].major == u.major
    ensures slots[i].owner == Some(u.m)
  {
  }

  lemma NoUse(slots: seq<Slot>, u: Use)
    requires SlotsOk(slots) && Owned(slots, u)
    ensures !(forall k | 0 <= k < |slots| :: slots[k].major != u.major)
  {
  }

  lemma BusyUse(b: Book, us: seq<Use>, j: nat)
    requires Ok(b) && j < |us| && (us == b.opening || us == b.closing)
    ensures us == b.opening ==> b.Refs(us[j].m) > 0
    ensures us == b.closing ==> b.Calls(us[j].m) > 0
    ensures Owned(b.slots, us[j])
  {
    assert Counted(b, us[j].m);
    UsesIn(us, j);
  }

  class Linkage {
    var slots: seq<Slot>
    var refs: map<nat, nat>
    var incall: map<nat, nat>
    var stale: nat
    // the calls into drivers under way, with the keys of the closes, and the holds no key accounts for
    var opening: seq<Use>
    var closing: seq<Use>
    var dying: seq<Key>
    var tally: map<nat, Tally>
    ghost var desk: Desk

    function Now(): Book
      reads this
    {
      Book(slots, opening, closing, refs, incall, tally)
    }

    ghost predicate Valid()
      reads this
    {
      Ok(Now()) && DeskOk(Now(), desk, dying)
    }

    constructor ()
      ensures Valid() && slots == [] && opening == [] && closing == []
    {
      slots, refs, incall, stale := [], map[], map[], 0;
      opening, closing, dying, tally, desk := [], [], [], map[], Desk({}, {}, {});
    }

    /** cslot. */
    method Find(mj: int) returns (i: Option<nat>)
      ensures i.Some? ==> i.value < |slots| && slots[i.value].major == mj
      ensures i.None? ==> forall k | 0 <= k < |slots| :: slots[k].major != mj
    {
      var k := 0;
      while k < |slots|
        invariant 0 <= k <= |slots| && forall j | 0 <= j < k :: slots[j].major != mj
      {
        if slots[k].major == mj {
          return Some(k);
        }
        k := k + 1;
      }
      return None;
    }

    /** cfind. */
    method FindKey(s: Slot, key: Key) returns (i: Option<nat>)
      ensures i.Some? ==> i.value < |s.keys| && s.keys[i.value] == key
      ensures i.None? ==> key !in s.keys
    {
      var k := 0;
      while k < |s.keys|
        invariant 0 <= k <= |s.keys| && forall j | 0 <= j < k :: s.keys[j] != key
      {
        if s.keys[k] == key {
          return Some(k);
        }
        k := k + 1;
      }
      return None;
    }

    // a hold of somebody else's
    method Hold(m: nat)
      requires Valid()
      modifies this`refs, this`tally
      ensures Valid() && Now().Refs(m) == old(Now().Refs(m)) + 1
    {
      ghost var b := Now();
      refs := refs[m := Get(refs, m, 0) + 1];
      tally := tally[m := Now().Tallied(m).(other := Now().Tallied(m).other + 1)];
      HoldKeeps(b, Now(), m);
      SlotsAkin(b, Now());
      DeskKeeps(b, Now(), desk, dying);
    }

    method Rele(m: nat)
      requires Valid() && Now().Tallied(m).other > 0
      modifies this`refs, this`tally
      ensures Valid() && Now().Refs(m) == old(Now().Refs(m)) - 1
    {
      ghost var b := Now();
      OtherHeld(b, m);
      refs := refs[m := Get(refs, m, 0) - 1];
      tally := tally[m := Now().Tallied(m).(other := Now().Tallied(m).other - 1)];
      ReleKeeps(b, Now(), m);
      SlotsAkin(b, Now());
      DeskKeeps(b, Now(), desk, dying);
    }

    /** dlm_creg, over a row of the switch that is empty or not, with memory for the slot or without. */
    method Register(name: string, mj: int, cdevcnt: nat, empty: bool, memory: bool) returns (e: Option<Error>)
      requires Valid()
      modifies this`slots
      ensures Valid()
      ensures e == Some(ECONFIG) <==> mj < 0 || mj >= cdevcnt
      ensures 0 <= mj < cdevcnt ==> (e == Some(EEXIST) <==> Taken(old(slots), name, mj, empty))
      ensures 0 <= mj < cdevcnt ==> (e == Some(ENOMEM) <==> !HasMajor(old(slots), mj) && empty && !memory)
      ensures e.Some? ==> e.value != ENXIO && e.value != EINVAL
      ensures slots == if e.None? && !HasMajor(old(slots), mj) then [Slot(name, mj, None, [])] + old(slots)
                       else old(slots)
    {
      if mj < 0 || mj >= cdevcnt {
        return Some(ECONFIG);
      }
      var i := Find(mj);
      if i.Some? {
        OneOfMajor(slots, i.value);
        return if slots[i.value].name == name then None else Some(EEXIST);
      }
      if !empty {
        return Some(EEXIST);
      }
      if !memory {
        return Some(ENOMEM);
      }
      var fr := Slot(name, mj, None, []);
      NewSlot(Now(), fr);
      NewAkin(Now(), fr);
      DeskKeeps(Now(), Now().(slots := [fr] + slots), desk, dying);
      slots := [fr] + slots;
      return None;
    }

    /** drv_install: every major of the range is the module's to take, or none is taken. */
    method Install(m: nat, name: string, mj: int, n: int, cdevcnt: nat) returns (e: Option<Error>)
      requires Valid()
      modifies this`slots
      ensures Valid() && |slots| == |old(slots)|
      ensures e.None? ==> 0 <= mj < cdevcnt && 1 <= n <= cdevcnt - mj
      ensures 0 <= mj < cdevcnt && 1 <= n <= cdevcnt - mj ==>
        (e.None? <==> forall x | mj <= x < mj + n :: Takeable(old(slots), m, name, x))
      ensures e.Some? ==> slots == old(slots)
      ensures e.None? ==> forall k | 0 <= k < |slots| ::
        slots[k] == if mj <= slots[k].major < mj + n then old(slots)[k].(owner := Some(m)) else old(slots)[k]
    {
      if mj < 0 || mj >= cdevcnt || n < 1 || n > cdevcnt - mj {
        return Some(EINVAL);
      }
      var free := MayTake(m, name, mj, n);
      if !free {
        return Some(EINVAL);
      }
      var i := 0;
      ghost var was := slots;
      while i < n
        invariant 0 <= i <= n && Valid() && |slots| == |was|
        invariant forall k | 0 <= k < |slots| ::
          slots[k] == if mj <= was[k].major < mj + i then was[k].(owner := Some(m)) else was[k]
      {
        var cs := Find(mj + i);
        if cs.Some? {
          OneOfMajor(slots, cs.value);
          ghost var b := Now();
          GiveKeeps(b, cs.value, m);
          slots := slots[cs.value := slots[cs.value].(owner := Some(m))];
          SlotsAkin(b, Now());
          DeskKeeps(b, Now(), desk, dying);
        } else {
          assert forall k | 0 <= k < |slots| :: slots[k].major == was[k].major;
        }
        i := i + 1;
      }
      return None;
    }

    // every major of the range is registered under the name, and nobody else's
    method MayTake(m: nat, name: string, mj: int, n: int) returns (ok: bool)
      requires Valid() && mj >= 0
      ensures ok <==> forall x | mj <= x < mj + n :: Takeable(slots, m, name, x)
      ensures ok ==> forall k | 0 <= k < |slots| && mj <= slots[k].major < mj + n ::
        slots[k].owner.None? || slots[k].owner == Some(m)
    {
      var i := 0;
      while i < n
        invariant 0 <= i && (i <= n || n < 0)
        invariant forall x | mj <= x < mj + i :: Takeable(slots, m, name, x)
        invariant forall k | 0 <= k < |slots| && mj <= slots[k].major < mj + i ::
          slots[k].owner.None? || slots[k].owner == Some(m)
      {
        var cs := Find(mj + i);
        if cs.None? || slots[cs.value].name != name
          || (slots[cs.value].owner.Some? && slots[cs.value].owner != Some(m))
        {
          NotTakeable(slots, m, name, mj + i);
          return false;
        }
        OneOfMajor(slots, cs.value);
        i := i + 1;
      }
      return true;
    }

    /** An unload attempt, and drv_remove when nothing holds the module.  It meets no recorded key, and of
        the keys open on the module only such as were opened while their own close was in the driver. */
    method Unload(m: nat) returns (ok: bool)
      requires Valid()
      modifies this`slots
      ensures Valid() && |slots| == |old(slots)|
      ensures ok <==> Now().Refs(m) == 0 && Now().Calls(m) == 0
      ensures !ok ==> slots == old(slots)
      ensures ok ==> forall k | 0 <= k < |slots| :: old(slots)[k].owner == Some(m) ==> old(slots)[k].keys == []
      ensures ok ==> forall k | 0 <= k < |slots| ::
        slots[k] == if old(slots)[k].owner == Some(m) then old(slots)[k].(owner := None) else old(slots)[k]
      ensures ok ==> forall key | key in desk.live && Owned(old(slots), Use(key.major, m)) ::
        key in desk.torn && key !in dying && key !in desk.stuck && !Recorded(old(slots), key)
    {
      if Get(refs, m, 0) > 0 || Get(incall, m, 0) > 0 {
        return false;
      }
      ghost var b := Now();
      forall key | key in desk.live && Owned(slots, Use(key.major, m))
        ensures key in desk.torn && key !in dying && key !in desk.stuck && !Recorded(slots, key)
      {
        OpenHolds(b, desk, dying, key);
        OnlyOwner(b, key, m);
      }
      var i := 0;
      while i < |slots|
        invariant 0 <= i <= |slots| == |old(slots)| && Valid()
        invariant forall k | 0 <= k < i :: old(slots)[k].owner == Some(m) ==> old(slots)[k].keys == []
        invariant forall k | 0 <= k < |slots| ::
          slots[k] == if k < i && old(slots)[k].owner == Some(m) then old(slots)[k].(owner := None) else old(slots)[k]
      {
        if slots[i].owner == Some(m) {
          TakeSlot(i, m);
        }
        i := i + 1;
      }
      return true;
    }

    method TakeSlot(i: nat, m: nat)
      requires Valid() && i < |slots| && slots[i].owner == Some(m) && Now().Refs(m) == 0 && Now().Calls(m) == 0
      modifies this`slots
      ensures Valid() && old(slots)[i].keys == [] && slots == old(slots)[i := old(slots)[i].(owner := None)]
    {
      TakeKeeps(Now(), i, m);
      TakenDesk(Now(), i, m, desk, dying);
      slots := slots[i := slots[i].(owner := None, keys := [])];
    }

    /** dlm_cdev_open up to the driver's open, a load having been tried if the slot had no module: the
        module is held, or there is none. */
    method OpenBegin(mj: nat) returns (m: Option<nat>)
      requires Valid()
      modifies this`refs, this`opening
      ensures Valid()
      ensures m.None? <==> forall k | 0 <= k < |slots| && slots[k].major == mj :: slots[k].owner.None?
      ensures m.None? ==> refs == old(refs) && opening == old(opening)
      ensures m.Some? ==> Owned(slots, Use(mj, m.value)) && opening == [Use(mj, m.value)] + old(opening)
      ensures m.Some? ==> refs == old(refs)[m.value := old(Now().Refs(m.value)) + 1]
    {
      var cs := Find(mj);
      if cs.None? || slots[cs.value].owner.None? {
        if cs.Some? {
          OneOfMajor(slots, cs.value);
        }
        return None;
      }
      ghost var b := Now();
      m := slots[cs.value].owner;
      refs := refs[m.value := Get(refs, m.value, 0) + 1];
      opening := [Use(mj, m.value)] + opening;
      OpenKeeps(b, Now(), Use(mj, m.value));
      SlotsAkin(b, Now());
      DeskKeeps(b, Now(), desk, dying);
    }

    /** dlm_cdev_open after the driver's open: a new key takes over the hold, a layered open keeps it, a
        failed open or another one of the same key gives it back, and a key the table has no room for
        keeps it for good. */
    method OpenEnd(j: nat, mj: nat, m: nat, minor: nat, otyp: nat, failed: bool)
      requires Valid() && j < |opening| && opening[j] == Use(mj, m)
      modifies this`slots, this`refs, this`opening, this`tally, this`desk
      ensures Valid() && opening == Less(old(opening), j) && |slots| == |old(slots)|
      ensures exists i :: OpenResult(old(Now()), Now(), i, m, Key(mj, minor, otyp), failed)
      ensures desk.(stuck := {}) == if failed || otyp == OTYP_LYR then old(desk).(stuck := {})
                                    else Opened(old(desk), dying, Key(mj, minor, otyp)).(stuck := {})
      ensures forall n: nat | n != m :: Now().Refs(n) == old(Now().Refs(n))
    {
      ghost var b := Now();
      BusyUse(b, b.opening, j);
      NoUse(slots, opening[j]);
      var cs := Find(mj);
      if cs.None? {
        assert false;
        return;
      }
      UseSlot(slots, opening[j], cs.value);
      var i := cs.value;
      var key := Key(mj, minor, otyp);
      var at := FindKey(slots[i], key);
      if failed || otyp == OTYP_LYR {
        Unrecorded(j, m, failed);
      } else if at.Some? {
        Again(j, i, m, key);
      } else {
        Record(j, i, m, key);
      }
      assert OpenResult(b, Now(), i, m, key, failed);
    }

    // an open that failed, or a layered one
    method Unrecorded(j: nat, m: nat, failed: bool)
      requires Valid() && j < |opening| && opening[j].m == m && Now().Refs(m) > 0
      modifies this`refs, this`opening, this`tally
      ensures Valid() && opening == Less(old(opening), j)
      ensures refs == if failed then old(refs)[m := old(Now().Refs(m)) - 1] else old(refs)
    {
      ghost var b := Now();
      if failed {
        refs := refs[m := Get(refs, m, 0) - 1];
        opening := Less(opening, j);
        OpenGone(b, Now(), j);
      } else {
        tally := tally[m := Now().Tallied(m).(layered := Now().Tallied(m).layered + 1)];
        opening := Less(opening, j);
        OpenStays(b, Now(), j, b.Tallied(m).(layered := b.Tallied(m).layered + 1));
      }
      SlotsAkin(b, Now());
      DeskKeeps(b, Now(), desk, dying);
    }

    // another open of a key in the table
    method Again(j: nat, i: nat, m: nat, key: Key)
      requires Valid() && j < |opening| && opening[j].m == m && Now().Refs(m) > 0
      requires i < |slots| && key in slots[i].keys
      modifies this`refs, this`opening, this`desk
      ensures Valid() && opening == Less(old(opening), j) && refs == old(refs)[m := old(Now().Refs(m)) - 1]
      ensures desk == Opened(old(desk), dying, key)
    {
      ghost var b := Now();
      refs := refs[m := Get(refs, m, 0) - 1];
      opening := Less(opening, j);
      OpenGone(b, Now(), j);
      SlotsAkin(b, Now());
      assert Recorded(slots, key);
      OpenedDesk(b, Now(), desk, Opened(desk, dying, key), dying, key);
      desk := Opened(desk, dying, key);
    }

    // a key not yet in the table
    method Record(j: nat, i: nat, m: nat, key: Key)
      requires Valid() && j < |opening| && opening[j] == Use(key.major, m) && i < |slots|
      requires slots[i].owner == Some(m) && slots[i].major == key.major && key !in slots[i].keys && key.otyp != OTYP_LYR
      modifies this`slots, this`opening, this`tally, this`desk
      ensures Valid() && opening == Less(old(opening), j)
      ensures slots == if |old(slots)[i].keys| < CDEV_NOPEN
                       then old(slots)[i := old(slots)[i].(keys := old(slots)[i].keys + [key])] else old(slots)
      ensures desk == Opened(old(desk), dying, key).(stuck := desk.stuck)
    {
      ghost var b := Now();
      if |slots[i].keys| < CDEV_NOPEN {
        slots := slots[i := slots[i].(keys := slots[i].keys + [key])];
        opening := Less(opening, j);
        OpenRecorded(b, Now(), j, i, key);
        MoreRecorded(b.slots, slots, i, key);
        OpenedDesk(b, Now(), desk, Opened(desk, dying, key), dying, key);
        desk := Opened(desk, dying, key);
      } else {
        tally := tally[m := Now().Tallied(m).(stuck := Now().Tallied(m).stuck + 1)];
        opening := Less(opening, j);
        OpenStays(b, Now(), j, b.Tallied(m).(stuck := b.Tallied(m).stuck + 1));
        SlotsAkin(b, Now());
        assert Owned(slots, Use(key.major, m)) && Now().Tallied(m).stuck > 0;
        OpenedDesk(b, Now(), desk, Opened(desk, dying, key).(stuck := desk.stuck + {key}), dying, key);
        desk := Opened(desk, dying, key).(stuck := desk.stuck + {key});
      }
    }

    /** An open interrupted in the driver gives its hold back. */
    method OpenAbort(j: nat, m: nat)
      requires Valid() && j < |opening| && opening[j].m == m
      modifies this`refs, this`opening
      ensures Valid() && Now().Refs(m) == old(Now().Refs(m)) - 1 && opening == Less(old(opening), j)
      ensures forall n: nat | n != m :: Now().Refs(n) == old(Now().Refs(n))
    {
      ghost var b := Now();
      BusyUse(b, b.opening, j);
      refs := refs[m := Get(refs, m, 0) - 1];
      opening := Less(opening, j);
      OpenGone(b, Now(), j);
      SlotsAkin(b, Now());
      DeskKeeps(b, Now(), desk, dying);
    }

    /** dlm_cdev_close up to the driver's close. */
    method CloseBegin(mj: nat, minor: nat, otyp: nat) returns (m: Option<nat>)
      requires Valid()
      modifies this`incall, this`closing, this`dying, this`stale, this`desk
      ensures Valid() && desk == Closed(old(desk), Key(mj, minor, otyp))
      ensures m.None? <==> forall k | 0 <= k < |slots| && slots[k].major == mj :: slots[k].owner.None?
      ensures m.None? ==> stale == old(stale) + 1 && closing == old(closing)
      ensures m.None? ==> dying == old(dying) && incall == old(incall)
      ensures m.Some? ==> Owned(slots, Use(mj, m.value))
      ensures m.Some? ==> incall == old(incall)[m.value := old(Now().Calls(m.value)) + 1]
      ensures m.Some? ==> stale == old(stale) && closing == [Use(mj, m.value)] + old(closing)
      ensures m.Some? ==> dying == [Key(mj, minor, otyp)] + old(dying)
    {
      var cs := Find(mj);
      ghost var b := Now();
      var key := Key(mj, minor, otyp);
      if cs.None? || slots[cs.value].owner.None? {
        if cs.Some? {
          OneOfMajor(slots, cs.value);
        }
        stale := stale + 1;
        ClosedDesk(b, b, desk, dying, key);
        desk := Closed(desk, key);
        return None;
      }
      m := slots[cs.value].owner;
      incall := incall[m.value := Get(incall, m.value, 0) + 1];
      closing := [Use(mj, m.value)] + closing;
      CallKeeps(b, Now(), Use(mj, m.value));
      ClosedDesk(b, Now(), desk, dying, key);
      dying, desk := [key] + dying, Closed(desk, key);
    }

    /** dlm_cdev_close after the driver's close: a recorded key goes with its hold, and one never recorded
        takes no hold away.  The holds go on adding up, unless this is a layered close that no layered open
        came before: then it takes away a hold of somebody else's. */
    method CloseEnd(j: nat, mj: nat, m: nat, minor: nat, otyp: nat)
      requires Valid() && j < |closing| && closing[j] == Use(mj, m) && dying[j] == Key(mj, minor, otyp)
      modifies this`slots, this`refs, this`incall, this`closing, this`dying, this`tally, this`stale
      ensures Valid() <==> !Unpaired(old(Now()), m, otyp)
      ensures closing == Less(old(closing), j) && dying == Less(old(dying), j) && |slots| == |old(slots)|
      ensures exists i: nat :: Ended(old(Now()), Now(), i, m, Key(mj, minor, otyp), old(stale), stale)
      ensures Now().Calls(m) == old(Now().Calls(m)) - 1
    {
      ghost var b := Now();
      BusyUse(b, b.closing, j);
      NoUse(slots, closing[j]);
      var cs := Find(mj);
      if cs.None? {
        assert false;
        return;
      }
      UseSlot(slots, closing[j], cs.value);
      var i := cs.value;
      var key := Key(mj, minor, otyp);
      if otyp == OTYP_LYR {
        EndLayered(j, m);
      } else {
        OneOfMajor(slots, i);
        var at := FindKey(slots[i], key);
        if at.Some? {
          Forget(j, m, i, at.value);
        } else {
          EndStale(j, m, i);
        }
      }
      assert Ended(b, Now(), i, m, key, old(stale), stale);
    }

    method Forget(j: nat, m: nat, i: nat, k: nat)
      requires Valid() && j < |closing| && closing[j] == Use(dying[j].major, m) && Now().Calls(m) > 0
      requires i < |slots| && slots[i].owner == Some(m) && slots[i].major == dying[j].major
      requires k < |slots[i].keys| && slots[i].keys[k] == dying[j]
      modifies this`slots, this`refs, this`incall, this`closing, this`dying
      ensures Valid() && closing == Less(old(closing), j) && dying == Less(old(dying), j)
      ensures Now().Refs(m) == old(Now().Refs(m)) - 1 && Now().Calls(m) == old(Now().Calls(m)) - 1
      ensures var keys := old(slots)[i].keys;
        slots == old(slots)[i := old(slots)[i].(keys := keys[k := keys[|keys|-1]][..|keys|-1])]
      ensures forall x :: x in slots[i].keys <==> x in old(slots)[i].keys && x != old(dying)[j]
    {
      ghost var b := Now();
      KeyHeld(b, i, m);
      var keys := slots[i].keys;
      incall := incall[m := Get(incall, m, 0) - 1];
      closing := Less(closing, j);
      slots := slots[i := slots[i].(keys := keys[k := keys[|keys|-1]][..|keys|-1])];
      refs := refs[m := Get(refs, m, 0) - 1];
      CloseForgets(b, Now(), j, i, k);
      Forgotten(keys, k);
      LessRecorded(b.slots, slots, i, dying[j]);
      EndedDesk(b, Now(), desk, dying, j);
      dying := Less(dying, j);
    }

    // the close of a key that was never recorded
    method EndStale(j: nat, m: nat, i: nat)
      requires Valid() && j < |closing| && closing[j].m == m && Now().Calls(m) > 0
      requires i < |slots| && slots[i].major == dying[j].major && dying[j] !in slots[i].keys
      modifies this`incall, this`closing, this`dying, this`stale
      ensures Valid() && closing == Less(old(closing), j) && dying == Less(old(dying), j) && stale == old(stale) + 1
      ensures Now().Calls(m) == old(Now().Calls(m)) - 1
    {
      ghost var b := Now();
      NotRecorded(b, i, dying[j]);
      incall := incall[m := Get(incall, m, 0) - 1];
      closing := Less(closing, j);
      stale := stale + 1;
      CloseEnds(b, Now(), j);
      EndedDesk(b, Now(), desk, dying, j);
      dying := Less(dying, j);
    }

    // the close of a layered open, which no key records
    method EndLayered(j: nat, m: nat)
      requires Valid() && j < |closing| && closing[j].m == m && dying[j].otyp == OTYP_LYR && Now().Calls(m) > 0
      modifies this`refs, this`incall, this`closing, this`dying, this`tally
      ensures Valid() <==> !Unpaired(old(Now()), m, OTYP_LYR)
      ensures closing == Less(old(closing), j) && dying == Less(old(dying), j)
      ensures Now().Calls(m) == old(Now().Calls(m)) - 1
      ensures Now().Refs(m) == if old(Now().Refs(m)) > 0 then old(Now().Refs(m)) - 1 else 0
    {
      ghost var b := Now();
      OtherHeld(b, m);
      var r, t := Get(refs, m, 0), Now().Tallied(m);
      incall := incall[m := Get(incall, m, 0) - 1];
      closing := Less(closing, j);
      if r > 0 {
        refs := refs[m := r - 1];
      }
      if t.layered > 0 {
        tally := tally[m := t.(layered := t.layered - 1)];
        CloseLayered(b, Now(), j);
      } else if r == 0 {
        CloseEnds(b, Now(), j);
      } else {
        Uncounted(b, Now(), j);
      }
      SlotsKeep(b, Now());
      NeverLayered(b, dying[j]);
      EndedDesk(b, Now(), desk, dying, j);
      dying := Less(dying, j);
    }

    // one event: true unless it is a layered close that no open came before
    method Step(ev: Event) returns (paired: bool)
      requires Valid()
      modifies this
      ensures paired ==> Valid()
    {
      paired := true;
      match ev {
        case Registers(name, mj, cdevcnt, empty, memory) =>
          var e := Register(name, mj, cdevcnt, empty, memory);
        case Installs(m, name, mj, n, cdevcnt) =>
          var e := Install(m, name, mj, n, cdevcnt);
        case Holds(m) =>
          Hold(m);
        case Releases(m) =>
          if Now().Tallied(m).other > 0 {
            Rele(m);
          }
        case Opens(mj) =>
          var m := OpenBegin(mj);
        case OpenDone(j, minor, otyp, failed) =>
          if j < |opening| {
            OpenEnd(j, opening[j].major, opening[j].m, minor, otyp, failed);
          }
        case OpenCut(j) =>
          if j < |opening| {
            OpenAbort(j, opening[j].m);
          }
        case Closes(mj, minor, otyp) =>
          var m := CloseBegin(mj, minor, otyp);
        case CloseDone(j) =>
          if j < |closing| {
            paired := !Unpaired(Now(), closing[j].m, dying[j].otyp);
            CloseEnd(j, closing[j].major, closing[j].m, dying[j].minor, dying[j].otyp);
          }
        case Unloads(m) =>
          var ok := Unload(m);
      }
    }

    /** Every run of opens, closes, loads and unloads, up to the first layered close that no open came
        before: the holds add up, and an open key holds its module exactly when OpenHolds says. */
    method Run(events: seq<Event>) returns (done: nat)
      requires Valid()
      modifies this
      ensures done <= |events| && (done == |events| ==> Valid())
      ensures Valid() ==> forall key | key in desk.live ::
        (HeldBy(Now(), desk, dying, key) <==> key !in desk.torn || key in dying || key in desk.stuck)
        && (HeldBy(Now(), desk, dying, key) ==> Pinned(Now(), key))
    {
      hide Ok, DeskOk, HeldBy, Pinned;
      done := 0;
      var paired := true;
      while done < |events| && paired
        invariant done <= |events| && (paired ==> Valid()) && (!paired ==> done < |events|)
        decreases |events| - done, paired
      {
        paired := Step(events[done]);
        if paired {
          done := done + 1;
        }
      }
      if Valid() {
        forall key | key in desk.live
          ensures HeldBy(Now(), desk, dying, key) <==> key !in desk.torn || key in dying || key in desk.stuck
          ensures HeldBy(Now(), desk, dying, key) ==> Pinned(Now(), key)
        {
          OpenHolds(Now(), desk, dying, key);
        }
      }
    }

    /** A device closed, and opened again while that close is in the driver: when the close is over, nothing
        holds the module, and it is unloaded with the device open. */
    method OpenedAmidClose(mj: nat, m: nat, minor: nat, otyp: nat) returns (ok: bool)
      requires Valid() && otyp != OTYP_LYR && |slots| == 1 && opening == closing == []
      requires slots[0].major == mj && slots[0].owner == Some(m) && slots[0].keys == [Key(mj, minor, otyp)]
      requires Now().Refs(m) == 1 && Now().Calls(m) == 0
      modifies this
      ensures ok && Valid() && Key(mj, minor, otyp) in desk.live && |slots| == 1 && slots[0].owner == None
    {
      hide Ok, DeskOk;
      var key := Key(mj, minor, otyp);
      ghost var s0 := slots[0];
      var c := CloseBegin(mj, minor, otyp);
      var o := OpenBegin(mj);
      OpenEnd(0, mj, m, minor, otyp, false);
      CloseEnd(0, mj, m, minor, otyp);
      ok := Unload(m);
    }

    /** A layered close that no open came before takes away the hold of an open key. */
    method UnpairedClose(mj: nat, m: nat, minor: nat, key: Key)
      requires Valid() && |slots| == 1 && opening == closing == []
      requires slots[0].major == mj && slots[0].owner == Some(m) && slots[0].keys == [key] && key in desk.live
      requires Now().Refs(m) == 1 && Now().Calls(m) == 0 && Now().Tallied(m).layered == 0
      modifies this
      ensures !Valid() && key in desk.live && Now().Refs(m) == 0 && Now().Calls(m) == 0
    {
      hide Ok, DeskOk;
      OneKey(Now(), 0);
      var c := CloseBegin(mj, minor, OTYP_LYR);
      CloseEnd(0, mj, m, minor, OTYP_LYR);
    }
  }

  // what happens to the linkage
  datatype Event =
    | Registers(name: string, mj: int, cdevcnt: nat, empty: bool, memory: bool)
    | Installs(m: nat, name: string, mj: int, n: int, cdevcnt: nat)
    | Holds(m: nat) | Releases(m: nat) | Unloads(m: nat)
    | Opens(major: nat) | OpenDone(j: nat, minor: nat, otyp: nat, failed: bool) | OpenCut(j: nat)
    | Closes(major: nat, minor: nat, otyp: nat) | CloseDone(j: nat)

  // a layered close of a module that has a hold, but none from a layered open
  predicate Unpaired(b: Book, m: nat, otyp: nat) {
    otyp == OTYP_LYR && b.Tallied(m).layered == 0 && b.Refs(m) > 0
  }

  ghost predicate HasMajor(slots: seq<Slot>, mj: int) {
    exists k :: 0 <= k < |slots| && slots[k].major == mj
  }

  // the major is registered under another name, or not registered over a row in use
  ghost predicate Taken(slots: seq<Slot>, name: string, mj: int, empty: bool) {
    if HasMajor(slots, mj) then forall k | 0 <= k < |slots| && slots[k].major == mj :: slots[k].name != name
    else !empty
  }

  // a major the module can take
  ghost predicate Takeable(slots: seq<Slot>, m: nat, name: string, x: int) {
    exists k | 0 <= k < |slots| ::
      slots[k].major == x && slots[k].name == name && (slots[k].owner.None? || slots[k].owner == Some(m))
  }

  lemma NotTakeable(slots: seq<Slot>, m: nat, name: string, x: int)
    requires SlotsOk(slots)
    requires forall k | 0 <= k < |slots| && slots[k].major == x ::
      slots[k].name != name || (slots[k].owner.Some? && slots[k].owner != Some(m))
    ensures !Takeable(slots, m, name, x)
  {
  }

  lemma OneOfMajor(slots: seq<Slot>, i: nat)
    requires SlotsOk(slots) && i < |slots|
    ensures forall k | 0 <= k < |slots| && k != i :: slots[k].major != slots[i].major
  {
  }

  lemma KeyHeld(b: Book, i: nat, m: nat)
    requires Ok(b) && i < |b.slots| && b.slots[i].owner == Some(m) && b.slots[i].keys != []
    ensures b.Refs(m) > 0
  {
    assert Counted(b, m);
    KeysAt(b.slots, i, m);
  }

  // the keys recorded, as a set
  ghost function KeySet(s: Slot): set<Key> {
    set k | k in s.keys
  }

  // what an open leaves of the keys and the holds
  ghost predicate OpenResult(b: Book, b': Book, i: nat, m: nat, key: Key, failed: bool)
  {
    && i < |b.slots| == |b'.slots| && b'.slots[i].major == key.major && b'.slots[i].owner == Some(m)
    && var had, has := KeySet(b.slots[i]), KeySet(b'.slots[i]);
    && (forall k | 0 <= k < |b.slots| && k < |b'.slots| && k != i :: b'.slots[k] == b.slots[k])
    && if failed then has == had && b'.Refs(m) == b.Refs(m) - 1
       else if key.otyp == OTYP_LYR then has == had && b'.Refs(m) == b.Refs(m)
       else if key in had then has == had && b'.Refs(m) == b.Refs(m) - 1
       else if |b.slots[i].keys| < CDEV_NOPEN then has == had + {key} && b'.Refs(m) == b.Refs(m)
       else has == had && b'.Refs(m) == b.Refs(m)
  }

  // what a close leaves
  ghost predicate CloseResult(b: Book, b': Book, i: nat, m: nat, key: Key)
  {
    && i < |b.slots| == |b'.slots| && b'.slots[i].major == key.major && b'.slots[i].owner == Some(m)
    && var had, has := KeySet(b.slots[i]), KeySet(b'.slots[i]);
    && (forall k | 0 <= k < |b.slots| && k < |b'.slots| && k != i :: b'.slots[k] == b.slots[k])
    && if key.otyp == OTYP_LYR then has == had && b'.Refs(m) == if b.Refs(m) > 0 then b.Refs(m) - 1 else 0
       else if key in had then has == had - {key} && b'.Refs(m) == b.Refs(m) - 1
       else has == had && b'.Refs(m) == b.Refs(m)
  }

  // ... and the close of a key never recorded is counted as stale
  ghost predicate Ended(b: Book, b': Book, i: nat, m: nat, key: Key, stale: nat, stale': nat) {
    && CloseResult(b, b', i, m, key)
    && stale' == stale + if key.otyp == OTYP_LYR || key in KeySet(b.slots[i]) then 0 else 1
  }

  // the last key in place of number k
  lemma Forgotten(keys: seq<Key>, k: nat)
    requires k < |keys| && forall i, j | 0 <= i < j < |keys| :: keys[i] != keys[j]
    ensures var rest := keys[k := keys[|keys|-1]][..|keys|-1];
      forall x :: x in rest <==> x in keys && x != keys[k]
  {
    var rest := keys[k := keys[|keys|-1]][..|keys|-1];
    forall x | x in keys && x != keys[k] ensures x in rest {
      var i :| 0 <= i < |keys| && keys[i] == x;
      if i == |keys| - 1 {
        assert rest[k] == x;
      } else {
        assert rest[i] == x;
      }
    }
  }
}

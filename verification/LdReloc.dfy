/**
 Section contents and relocations of a module file: what is read into the
 image, what each relocation stores, and the pass over all relocation sections
 in chunks of entries.  The file is its bytes; a read beyond its end is short.
 */
module LdReloc {
  import opened Basics
  import opened RingMath
  import opened Bytes
  import opened LdLayout
  import opened LdSyms

  const R_NONE := 0
  const R_32 := 1
  const R_16 := 2
  const R_8 := 3
  const R_PC32 := 4
  const R_PC16 := 5
  const R_PC8 := 6

  const RCHUNK := 64

  // ----- one relocation

  datatype Rela = Rela(off: nat, info: nat, addend: nat)

  // the resolved symbols and the run address of the image
  datatype Env = Env(ls: seq<Lsym>, base: nat)

  // one relocation of a section that lies at place in the image
  datatype Entry = Entry(place: nat, size: nat, rel: Rela)

  // what a relocation does: nothing, nothing because it is refused, or store an n-byte field
  datatype Patch = Skip | Refuse | Store(at: nat, n: nat, x: nat)

  function Type(r: Rela): nat {
    r.info % 0x100
  }

  function SymIndex(r: Rela): nat {
    r.info / 0x100
  }

  predicate PcRelative(typ: nat) {
    typ == R_PC32 || typ == R_PC16 || typ == R_PC8
  }

  function Width(typ: nat): Option<nat> {
    if typ == R_32 || typ == R_PC32 then Some(4)
    else if typ == R_16 || typ == R_PC16 then Some(2)
    else if typ == R_8 || typ == R_PC8 then Some(1)
    else None
  }

  // the values a field of that type can hold
  predicate Fits(typ: nat, v: int) {
    && (typ == R_16 ==> -0x8000 <= v <= 0xffff)
    && (typ == R_PC16 ==> -0x8000 <= v <= 0x7fff)
    && (typ == R_8 ==> -0x80 <= v <= 0xff)
    && (typ == R_PC8 ==> -0x80 <= v <= 0x7f)
  }

  // the address S of a symbol, if it has one
  function Address(env: Env, i: nat): Option<nat> {
    if i >= |env.ls| then None
    else if i == 0 then Some(0)
    else match env.ls[i].kind
      case NoKind => None
      case Rel => Some(env.ls[i].val + env.base)
      case Absolute => Some(env.ls[i].val)
  }

  // S + A or S + A - P, modulo 2^32
  function Value(env: Env, e: Entry, s: nat): (x: nat)
    ensures x < WORD
  {
    var p := env.base + e.place + e.rel.off;
    (s + e.rel.addend - if PcRelative(Type(e.rel)) then p else 0) % WORD
  }

  function Decide(env: Env, e: Entry): (p: Patch)
    ensures p.Store? ==> p.x < WORD && p.n in {1, 2, 4} && Width(Type(e.rel)) == Some(p.n)
    ensures p.Store? ==> e.place <= p.at && p.at + p.n <= e.place + e.size
  {
    var typ, sym := Type(e.rel), Address(env, SymIndex(e.rel));
    if typ == R_NONE then Skip
    else if Width(typ).None? || e.rel.off + Width(typ).value > e.size || sym.None? then Refuse
    else
      var x := Value(env, e, sym.value);
      if Fits(typ, S32(x)) then Store(e.place + e.rel.off, Width(typ).value, x) else Refuse
  }

  // ----- fields of the image

  function Modulus(n: nat): nat {
    if n == 4 then WORD else if n == 2 then 0x1_0000 else 0x100
  }

  // the part of a value a field of n bytes keeps
  function Low(x: nat, n: nat): nat {
    x % Modulus(n)
  }

  function Get(m: seq<Byte>, o: nat, n: nat): (v: nat)
    requires n in {1, 2, 4} && o + n <= |m|
    ensures v < Modulus(n)
  {
    if n == 4 then G32(m, o) else if n == 2 then G16(m, o) else G8(m, o)
  }

  function Put(m: seq<Byte>, o: nat, n: nat, x: nat): (m': seq<Byte>)
    requires n in {1, 2, 4} && o + n <= |m|
    ensures Only(m, m', o, n)
  {
    if n == 4 then
      m[o := x / 0x100_0000 % 0x100][o + 1 := x / 0x1_0000 % 0x100][o + 2 := x / 0x100 % 0x100][o + 3 := x % 0x100]
    else if n == 2 then m[o := x / 0x100 % 0x100][o + 1 := x % 0x100]
    else m[o := x % 0x100]
  }

  lemma PutGet(m: seq<Byte>, o: nat, n: nat, x: nat)
    requires n in {1, 2, 4} && o + n <= |m|
    ensures Get(Put(m, o, n, x), o, n) == Low(x, n)
  {
    Split(x, 0x100, 0x100);
    Split(x / 0x1_0000, 0x100, 0x100);
    Split(x, 0x1_0000, 0x1_0000);
  }

  // the field and the rest of the block determine it
  lemma PutUnique(m: seq<Byte>, m': seq<Byte>, o: nat, n: nat, x: nat)
    requires n in {1, 2, 4} && o + n <= |m|
    requires Only(m, m', o, n) && Get(m', o, n) == Low(x, n)
    ensures m' == Put(m, o, n, x)
  {
    var w := Put(m, o, n, x);
    PutGet(m, o, n, x);
    SameField(m', w, o, n);
    forall b | 0 <= b < |m| ensures m'[b] == w[b] {
      if !(o <= b < o + n) {
        assert m'[b] == m[b];
      }
    }
  }

  lemma SameField(m: seq<Byte>, w: seq<Byte>, o: nat, n: nat)
    requires n in {1, 2, 4} && o + n <= |m| == |w| && Get(m, o, n) == Get(w, o, n)
    ensures forall b | o <= b < o + n :: m[b] == w[b]
    decreases n
  {
    if n == 4 {
      assert G16(m, o) == G16(w, o) && G16(m, o + 2) == G16(w, o + 2);
      SameField(m, w, o, 2);
      SameField(m, w, o + 2, 2);
    } else if n == 2 {
      assert m[o] == w[o] && m[o + 1] == w[o + 1];
    }
  }

  // a field of n bytes read as a signed number
  function Signed(w: nat, n: nat): int {
    if w >= Modulus(n) / 2 then w - Modulus(n) else w
  }

  /** A stored field reads back to the exact value: the PC-relative ones and the 32-bit ones as
      signed numbers, an absolute short one as an unsigned or as a signed number. */
  lemma ReadsBack(env: Env, e: Entry, m: seq<Byte>)
    requires Decide(env, e).Store? && e.place + e.size <= |m|
    ensures var p, typ := Decide(env, e), Type(e.rel);
      var w := Get(Put(m, p.at, p.n, p.x), p.at, p.n);
      && (p.n == 4 ==> w == p.x)
      && (Signed(w, p.n) == S32(p.x) || ((typ == R_16 || typ == R_8) && w == p.x == S32(p.x)))
  {
    hide Get, Put, Value, Address, Signed, S32;
    var p := Decide(env, e);
    PutGet(m, p.at, p.n, p.x);
    ShortReads(Type(e.rel), p.n, p.x);
  }

  lemma ShortReads(typ: nat, n: nat, x: nat)
    requires Width(typ) == Some(n) && x < WORD && Fits(typ, S32(x))
    ensures n == 4 ==> Low(x, n) == x
    ensures Signed(Low(x, n), n) == S32(x) || ((typ == R_16 || typ == R_8) && Low(x, n) == x == S32(x))
  {
    if n != 4 {
      LowBits(S32(x), x, Modulus(n));
    }
  }

  // the low bits of a 32-bit word that stands for a small signed number
  lemma LowBits(v: int, x: nat, z: nat)
    requires x < WORD && v == S32(x) && (z == 0x100 || z == 0x1_0000)
    requires -(z as int) <= v < z
    ensures x % z == if v < 0 then v + z else v
  {
    if v < 0 {
      assert WORD == (WORD / z) * z;
      ModShift(v, z, WORD / z);
      ModIs(v, z, -1, v + z);
    } else {
      ModIs(v, z, 0, v);
    }
  }

  lemma ModPlus(y: int, d: int, n: int)
    requires n > 0
    ensures (y % n + d) % n == (y + d) % n
  {
    var z := y % n + d;
    ModIs(y + d, n, y / n + z / n, z % n) by {
      assert n * (y / n + z / n) == n * (y / n) + n * (z / n);
    }
  }

  lemma ModShift(v: int, z: nat, k: nat)
    requires z > 0
    ensures (v + k * z) % z == v % z
  {
    ModIs(v + k * z, z, v / z + k, v % z);
  }

  // ----- all relocations, one after the other

  function Apply(env: Env, m: seq<Byte>, e: Entry): (r: Option<seq<Byte>>)
    requires e.place + e.size <= |m|
    ensures r.Some? ==> |r.value| == |m|
  {
    match Decide(env, e)
    case Skip => Some(m)
    case Refuse => None
    case Store(at, n, x) => Some(Put(m, at, n, x))
  }

  ghost predicate Inside(jobs: seq<Entry>, size: nat) {
    forall j | 0 <= j < |jobs| :: jobs[j].place + jobs[j].size <= size
  }

  ghost function ApplyAll(env: Env, m: seq<Byte>, jobs: seq<Entry>): (r: Option<seq<Byte>>)
    requires Inside(jobs, |m|)
    ensures r.Some? ==> |r.value| == |m|
  {
    if jobs == [] then Some(m)
    else
      var was := ApplyAll(env, m, jobs[..|jobs|-1]);
      if was.None? then None else Apply(env, was.value, jobs[|jobs|-1])
  }

  // after a refused relocation nothing makes the pass succeed
  lemma {:induction false} RefusedStays(env: Env, m: seq<Byte>, jobs: seq<Entry>, n: nat)
    requires Inside(jobs, |m|) && n <= |jobs|
    ensures ApplyAll(env, m, jobs[..n]).None? ==> ApplyAll(env, m, jobs).None?
  {
    if n == |jobs| {
      assert jobs[..n] == jobs;
    } else {
      RefusedStays(env, m, jobs[..|jobs|-1], n);
      assert jobs[..|jobs|-1][..n] == jobs[..n];
    }
  }

  // the entry's field has the byte b
  ghost predicate Touches(env: Env, e: Entry, b: nat) {
    var p := Decide(env, e);
    p.Store? && p.at <= b < p.at + p.n
  }

  /** Only bytes of the target sections' relocated fields change. */
  lemma {:induction false} OnlyFields(env: Env, m: seq<Byte>, jobs: seq<Entry>, b: nat)
    requires Inside(jobs, |m|) && ApplyAll(env, m, jobs).Some? && b < |m|
    requires forall j | 0 <= j < |jobs| :: !Touches(env, jobs[j], b)
    ensures ApplyAll(env, m, jobs).value[b] == m[b]
  {
    if jobs != [] {
      OnlyFields(env, m, jobs[..|jobs|-1], b);
      assert !Touches(env, jobs[|jobs|-1], b);
    }
  }

  // no later relocation writes into the field of relocation j
  ghost predicate Last(env: Env, jobs: seq<Entry>, j: nat)
    requires j < |jobs|
  {
    && Decide(env, jobs[j]).Store?
    && forall k, b {:trigger Touches(env, jobs[k], b)} | j < k < |jobs| && Touches(env, jobs[j], b) ::
         !Touches(env, jobs[k], b)
  }

  /** In the final image every field holds the value of the last relocation of it. */
  lemma {:induction false} FieldHolds(env: Env, m: seq<Byte>, jobs: seq<Entry>, j: nat)
    requires Inside(jobs, |m|) && ApplyAll(env, m, jobs).Some?
    requires j < |jobs| && Last(env, jobs, j)
    ensures var p := Decide(env, jobs[j]);
      p.at + p.n <= |m| && Get(ApplyAll(env, m, jobs).value, p.at, p.n) == Low(p.x, p.n)
  {
    var front, e := jobs[..|jobs|-1], jobs[|jobs|-1];
    var p := Decide(env, jobs[j]);
    var was := ApplyAll(env, m, front).value;
    assert Inside([jobs[j]], |m|);
    if j == |jobs| - 1 {
      PutGet(was, p.at, p.n, p.x);
    } else {
      forall k, b | j < k < |front| && Touches(env, front[j], b) ensures !Touches(env, front[k], b) {
        assert front[k] == jobs[k];
      }
      FieldHolds(env, m, front, j);
      var now := ApplyAll(env, m, jobs).value;
      forall b | p.at <= b < p.at + p.n ensures now[b] == was[b] {
        assert Touches(env, jobs[j], b);
        assert !Touches(env, e, b);
      }
    }
  }

  // ----- what the fields mean

  // S, the address symbol i stands for in an image that runs at base; index 0 is no symbol
  function Stands(ls: seq<Lsym>, base: nat, i: nat): nat
    requires i < |ls|
  {
    if i == 0 then 0 else if ls[i].kind.Rel? then ls[i].val + base else ls[i].val
  }

  // the contents w of a field at the address p stand for the address v, modulo 2^32: by themselves,
  // a short field read either way, or as the distance from p
  ghost predicate Reads(typ: nat, n: nat, p: nat, w: nat, v: nat) {
    if typ == R_32 then w % WORD == v % WORD
    else if typ == R_16 || typ == R_8 then w % WORD == v % WORD || Signed(w, n) % WORD == v % WORD
    else (p + Signed(w, n)) % WORD == v % WORD
  }

  // the relocation names a field of its section, and a symbol that has an address
  predicate Proper(ls: seq<Lsym>, e: Entry) {
    var n, i := Width(Type(e.rel)), SymIndex(e.rel);
    n.Some? && e.rel.off + n.value <= e.size && i < |ls| && (i > 0 ==> !ls[i].kind.NoKind?)
  }

  // the contents w of its field stand for its symbol plus its addend
  ghost predicate Means(ls: seq<Lsym>, base: nat, e: Entry, w: nat)
    requires Proper(ls, e)
  {
    var typ := Type(e.rel);
    Reads(typ, Width(typ).value, base + e.place + e.rel.off, w, Stands(ls, base, SymIndex(e.rel)) + e.rel.addend)
  }

  // in the image m they do
  ghost predicate Refers(ls: seq<Lsym>, base: nat, e: Entry, m: seq<Byte>) {
    Proper(ls, e) && e.place + e.size <= |m|
    && Means(ls, base, e, Get(m, e.place + e.rel.off, Width(Type(e.rel)).value))
  }

  // the word that a proper relocation makes
  ghost function Word(env: Env, e: Entry): (x: nat)
    requires Proper(env.ls, e)
    ensures x < WORD
  {
    Value(env, e, Stands(env.ls, env.base, SymIndex(e.rel)))
  }

  lemma DecideWord(env: Env, e: Entry)
    requires Type(e.rel) != R_NONE
    ensures Decide(env, e).Store? <==> Proper(env.ls, e) && Fits(Type(e.rel), S32(Word(env, e)))
    ensures Decide(env, e).Store? ==>
      Decide(env, e) == Store(e.place + e.rel.off, Width(Type(e.rel)).value, Word(env, e))
  {
  }

  // the contents w of an n-byte field are the word x, read as that type is read
  ghost predicate Holds(typ: nat, n: nat, w: nat, x: nat) {
    if typ == R_32 then w % WORD == x
    else if typ == R_16 || typ == R_8 then w % WORD == x || Signed(w, n) % WORD == x
    else Signed(w, n) % WORD == x
  }

  lemma MeansWord(env: Env, e: Entry, w: nat)
    requires Proper(env.ls, e)
    ensures Means(env.ls, env.base, e, w) <==> Holds(Type(e.rel), Width(Type(e.rel)).value, w, Word(env, e))
  {
    var p, v := env.base + e.place + e.rel.off, Stands(env.ls, env.base, SymIndex(e.rel)) + e.rel.addend;
    var y := Signed(w, Width(Type(e.rel)).value);
    ModPlus(p + y, -p, WORD);
    ModPlus(v, -p, WORD);
    ModPlus(y, p, WORD);
    ModPlus(v - p, p, WORD);
  }

  // an n-byte field can hold a word exactly when the word fits
  lemma FitsField(typ: nat, n: nat, x: nat)
    requires Width(typ) == Some(n) && x < WORD
    ensures Fits(typ, S32(x)) <==> exists w: nat :: w < Modulus(n) && Holds(typ, n, w, x)
    ensures Fits(typ, S32(x)) ==> Low(x, n) < Modulus(n) && Holds(typ, n, Low(x, n), x)
  {
    if Fits(typ, S32(x)) {
      ShortReads(typ, n, x);
      ShortIs(Signed(x, 4), x);
      assert Holds(typ, n, Low(x, n), x);
    }
    forall w: nat | w < Modulus(n) && Holds(typ, n, w, x) ensures Fits(typ, S32(x)) {
      ShortIs(Signed(w, n), x);
      ShortIs(w, x);
    }
  }

  lemma ShortIs(y: int, x: nat)
    requires -0x8000_0000 <= y < WORD && x < WORD
    ensures y % WORD == x && y < 0x8000_0000 ==> S32(x) == y
  {
    ModIs(y, WORD, if y < 0 then -1 else 0, if y < 0 then y + WORD else y);
  }

  /** A relocation is accepted exactly when its field is inside the section, its symbol has an address, and
      some contents of the field stand for the symbol plus the addend; what it stores does. */
  lemma AcceptsMeant(env: Env, e: Entry)
    requires Type(e.rel) != R_NONE
    ensures var n := Width(Type(e.rel));
      Decide(env, e).Store? <==>
        Proper(env.ls, e) && exists w: nat :: w < Modulus(n.value) && Means(env.ls, env.base, e, w)
    ensures var p := Decide(env, e);
      p.Store? ==>
        && p.at == e.place + e.rel.off && Width(Type(e.rel)) == Some(p.n)
        && Means(env.ls, env.base, e, Low(p.x, p.n))
  {
    hide Means, Holds, Fits, Word;
    DecideWord(env, e);
    if Proper(env.ls, e) {
      var typ, n, x := Type(e.rel), Width(Type(e.rel)).value, Word(env, e);
      FitsField(typ, n, x);
      forall w: nat ensures Means(env.ls, env.base, e, w) <==> Holds(typ, n, w, x) {
        MeansWord(env, e, w);
      }
    }
  }

  lemma FieldMeans(env: Env, e: Entry, m: seq<Byte>)
    requires Type(e.rel) != R_NONE && Decide(env, e).Store? && e.place + e.size <= |m|
    requires var p := Decide(env, e); Get(m, p.at, p.n) == Low(p.x, p.n)
    ensures Refers(env.ls, env.base, e, m)
  {
    hide Means;
    AcceptsMeant(env, e);
  }

  // the fields of the two relocations have no byte in common
  predicate Apart(e: Entry, e': Entry) {
    var n, n' := Width(Type(e.rel)), Width(Type(e'.rel));
    n.None? || n'.None? || e.place + e.rel.off + n.value <= e'.place + e'.rel.off
    || e'.place + e'.rel.off + n'.value <= e.place + e.rel.off
  }

  /** In the relocated image m each field that no later relocation writes into stands for its symbol plus
      its addend. */
  ghost predicate Resolved(ls: seq<Lsym>, base: nat, jobs: seq<Entry>, m: seq<Byte>) {
    forall j | 0 <= j < |jobs| && Type(jobs[j].rel) != R_NONE
            && (forall k | j < k < |jobs| :: Apart(jobs[j], jobs[k])) ::
      Refers(ls, base, jobs[j], m)
  }

  lemma {:induction false} PassMeans(env: Env, m: seq<Byte>, jobs: seq<Entry>)
    requires Inside(jobs, |m|) && ApplyAll(env, m, jobs).Some?
    ensures Resolved(env.ls, env.base, jobs, ApplyAll(env, m, jobs).value)
  {
    hide Means;
    forall j | 0 <= j < |jobs| && Type(jobs[j].rel) != R_NONE
            && (forall k | j < k < |jobs| :: Apart(jobs[j], jobs[k]))
      ensures Refers(env.ls, env.base, jobs[j], ApplyAll(env, m, jobs).value)
    {
      Stored(env, m, jobs, j);
      AcceptsMeant(env, jobs[j]);
      forall k, b | j < k < |jobs| && Touches(env, jobs[j], b) ensures !Touches(env, jobs[k], b) {
        assert Apart(jobs[j], jobs[k]);
      }
      FieldHolds(env, m, jobs, j);
    }
  }

  // the relocation does nothing, or some contents of its field stand for its symbol plus its addend
  ghost predicate Bearable(ls: seq<Lsym>, base: nat, e: Entry) {
    Type(e.rel) == R_NONE
    || (Proper(ls, e) && exists w: nat :: w < Modulus(Width(Type(e.rel)).value) && Means(ls, base, e, w))
  }

  // a pass succeeds exactly when each of its relocations can be met
  lemma {:induction false} PassSucceeds(env: Env, m: seq<Byte>, jobs: seq<Entry>)
    requires Inside(jobs, |m|)
    ensures ApplyAll(env, m, jobs).Some? <==> forall j | 0 <= j < |jobs| :: Bearable(env.ls, env.base, jobs[j])
  {
    hide Means;
    if jobs != [] {
      var front, e := jobs[..|jobs|-1], jobs[|jobs|-1];
      PassSucceeds(env, m, front);
      BearsMeant(env, e);
      assert forall j | 0 <= j < |front| :: jobs[j] == front[j];
    }
  }

  lemma BearsMeant(env: Env, e: Entry)
    ensures Bearable(env.ls, env.base, e) <==> !Decide(env, e).Refuse?
  {
    hide Means;
    if Type(e.rel) != R_NONE {
      AcceptsMeant(env, e);
    }
  }

  // no relocation of a pass that succeeds is refused
  lemma {:induction false} Stored(env: Env, m: seq<Byte>, jobs: seq<Entry>, j: nat)
    requires Inside(jobs, |m|) && ApplyAll(env, m, jobs).Some? && j < |jobs|
    ensures !Decide(env, jobs[j]).Refuse?
  {
    RefusedStays(env, m, jobs, j + 1);
    assert jobs[..j + 1][..j] == jobs[..j];
  }

  // ----- moving the image

  // the entry refers to a symbol of the module's own image
  predicate Internal(env: Env, e: Entry) {
    0 < SymIndex(e.rel) < |env.ls| && env.ls[SymIndex(e.rel)].kind.Rel?
  }

  // how far the value of a relocation moves with the image
  function Shift(env: Env, e: Entry, env': Env): int {
    (if Internal(env, e) then env'.base - env.base else 0)
    - (if PcRelative(Type(e.rel)) then env'.base - env.base else 0)
  }

  // a 32-bit word moved by d
  function Moved(x: nat, d: int): nat {
    (x + d) % WORD
  }

  lemma MoveValue(env: Env, e: Entry, env': Env)
    requires env'.ls == env.ls && Address(env, SymIndex(e.rel)).Some?
    ensures Address(env', SymIndex(e.rel)).Some?
    ensures Value(env', e, Address(env', SymIndex(e.rel)).value)
         == Moved(Value(env, e, Address(env, SymIndex(e.rel)).value), Shift(env, e, env'))
  {
    var s := Address(env, SymIndex(e.rel)).value;
    var y := s + e.rel.addend - if PcRelative(Type(e.rel)) then env.base + e.place + e.rel.off else 0;
    ModPlus(y, Shift(env, e, env'), WORD);
  }

  /** A PC-relative field of a symbol inside the image does not depend on where the image runs, and
      neither does its being accepted. */
  lemma InternalStays(env: Env, e: Entry, env': Env)
    requires env'.ls == env.ls && Internal(env, e) && PcRelative(Type(e.rel))
    ensures Decide(env', e) == Decide(env, e)
  {
    MoveValue(env, e, env');
    var x := Value(env, e, Address(env, SymIndex(e.rel)).value);
    ModIs(x, WORD, 0, x);
  }

  // a 32-bit field moves by the distance, and is never refused for moving
  lemma WordMoves(env: Env, e: Entry, env': Env)
    requires env'.ls == env.ls && Decide(env, e).Store? && Width(Type(e.rel)) == Some(4)
    ensures Decide(env', e) == Decide(env, e).(x := Moved(Decide(env, e).x, Shift(env, e, env')))
  {
    MoveValue(env, e, env');
  }

  /** The whole image relocated for another address: a PC-relative field of a reference into the
      image stays, and an absolute 32-bit one moves by exactly the distance. */
  lemma {:induction false} Rebased(env: Env, env': Env, m: seq<Byte>, jobs: seq<Entry>, j: nat, f: seq<Byte>,
                                   f': seq<Byte>)
    requires env'.ls == env.ls && Inside(jobs, |m|) && j < |jobs| && Internal(env, jobs[j])
    requires ApplyAll(env, m, jobs) == Some(f) && ApplyAll(env', m, jobs) == Some(f')
    requires Last(env, jobs, j) && Last(env', jobs, j)
    ensures var p := Decide(env, jobs[j]);
      && p.Store? && p.at + p.n <= |f| == |f'|
      && (PcRelative(Type(jobs[j].rel)) ==> Get(f', p.at, p.n) == Get(f, p.at, p.n))
      && (Type(jobs[j].rel) == R_32 ==> Get(f', p.at, p.n) == Moved(Get(f, p.at, p.n), env'.base - env.base))
  {
    hide ApplyAll, Inside, Internal, Decide, Get, Type, PcRelative, Low, Moved;
    FieldHolds(env, m, jobs, j);
    FieldHolds(env', m, jobs, j);
    BothStore(env, jobs[j], env');
  }

  lemma WordWhole(x: nat)
    requires x < WORD
    ensures Low(x, 4) == x
  {
  }

  lemma BothStore(env: Env, e: Entry, env': Env)
    requires env'.ls == env.ls && Internal(env, e) && Decide(env, e).Store? && Decide(env', e).Store?
    ensures var p, p' := Decide(env, e), Decide(env', e);
      && p'.at == p.at && p'.n == p.n
      && (PcRelative(Type(e.rel)) ==> p' == p)
      && (Type(e.rel) == R_32 ==> p.n == 4 && Low(p'.x, 4) == Moved(Low(p.x, 4), env'.base - env.base))
  {
    if PcRelative(Type(e.rel)) {
      InternalStays(env, e, env');
    } else if Type(e.rel) == R_32 {
      WordMoves(env, e, env');
      WordWhole(Decide(env, e).x);
      WordWhole(Decide(env', e).x);
    }
  }

  // ----- the relocation sections of the file

  function RelaAt(buf: seq<Byte>, o: nat): Rela
    requires o + RELASZ <= |buf|
  {
    Rela(G32(buf, o), G32(buf, o + 4), G32(buf, o + 8))
  }

  // a read of the file: all of it or short
  function Read(file: seq<Byte>, off: nat, len: nat): Option<seq<Byte>> {
    if len == 0 then Some([])
    else if off + len <= |file| then Some(file[off..off + len])
    else None
  }

  // a relocation section whose target has a place in the image
  predicate Applies(secs: seq<Sec>, i: nat)
    requires i < |secs|
  {
    secs[i].typ == SHT_RELA && secs[i].info < |secs| && secs[i].info > 0 && secs[secs[i].info].alloc
  }

  // its first n relocations in one piece
  function Jobs(file: seq<Byte>, secs: seq<Sec>, i: nat, n: nat): (r: seq<Entry>)
    requires i < |secs| && Applies(secs, i) && (n > 0 ==> secs[i].start + RELASZ * n <= |file|)
    ensures |r| == n
  {
    var t := secs[i].info;
    seq(n, q requires 0 <= q < n => Entry(Offset(secs, t), secs[t].size, RelaAt(file, secs[i].start + RELASZ * q)))
  }

  function Count(s: Sec): nat {
    s.size / RELASZ
  }

  // it can be read, and its target has bytes of its own
  predicate Readable(file: seq<Byte>, secs: seq<Sec>, i: nat)
    requires i < |secs|
  {
    Applies(secs, i) ==>
      && secs[secs[i].info].typ != SHT_NOBITS
      && (Count(secs[i]) > 0 ==> secs[i].start + RELASZ * Count(secs[i]) <= |file|)
  }

  // all relocations of the sections before n, in file order
  ghost function AllJobs(file: seq<Byte>, secs: seq<Sec>, n: nat): seq<Entry>
    requires n <= |secs| && forall i | 1 <= i < n :: Readable(file, secs, i)
  {
    if n <= 1 then []
    else
      assert Readable(file, secs, n - 1);
      AllJobs(file, secs, n - 1)
      + if Applies(secs, n - 1) then Jobs(file, secs, n - 1, Count(secs[n-1])) else []
  }

  // the sections' places are inside the image
  ghost predicate Roomy(secs: seq<Sec>, size: nat) {
    forall t | 1 <= t < |secs| && secs[t].alloc :: Offset(secs, t) + secs[t].size <= size
  }

  /** An accepted layout leaves every target inside the image. */
  lemma {:induction false} AcceptedRoomy(secs: seq<Sec>, max: nat, size: nat)
    requires Accepted(secs, max) && EndAt(secs, |secs|) <= size
    ensures Roomy(secs, size)
  {
    forall t | 1 <= t < |secs| && secs[t].alloc ensures Offset(secs, t) + secs[t].size <= size {
      EndGrows(secs, t + 1, |secs|);
    }
  }

  lemma {:induction false} AllInside(file: seq<Byte>, secs: seq<Sec>, n: nat, size: nat)
    requires n <= |secs| && Roomy(secs, size) && forall i | 1 <= i < n :: Readable(file, secs, i)
    ensures Inside(AllJobs(file, secs, n), size)
  {
    if n > 1 {
      AllInside(file, secs, n - 1, size);
    }
  }

  lemma {:induction false} AllPrefix(file: seq<Byte>, secs: seq<Sec>, i: nat, n: nat)
    requires i <= n <= |secs| && forall i | 1 <= i < n :: Readable(file, secs, i)
    ensures AllJobs(file, secs, i) <= AllJobs(file, secs, n)
    decreases n - i
  {
    if i < n {
      AllPrefix(file, secs, i, n - 1);
    }
  }

  // the whole pass in one piece: None when a section cannot be read or a relocation is refused
  ghost function Relocated(file: seq<Byte>, secs: seq<Sec>, env: Env, m: seq<Byte>): (r: Option<seq<Byte>>)
    requires Roomy(secs, |m|)
  {
    if forall i | 1 <= i < |secs| :: Readable(file, secs, i) then
      AllInside(file, secs, |secs|, |m|);
      ApplyAll(env, m, AllJobs(file, secs, |secs|))
    else None
  }

  /** The entries of a relocation section are its 12-byte groups of words, in order, after those of the
      sections before it. */
  lemma {:induction false} JobAt(file: seq<Byte>, secs: seq<Sec>, i: nat, q: nat)
    requires 1 <= i < |secs| && Applies(secs, i) && q < secs[i].size / 12
    requires forall i | 1 <= i < |secs| :: Readable(file, secs, i)
    ensures var k, at, t := |AllJobs(file, secs, i)| + q, secs[i].start + 12 * q, secs[i].info;
      && at + 12 <= |file| && k < |AllJobs(file, secs, |secs|)|
      && AllJobs(file, secs, |secs|)[k]
         == Entry(Offset(secs, t), secs[t].size, Rela(G32(file, at), G32(file, at + 4), G32(file, at + 8)))
  {
    hide Offset, G32;
    assert Readable(file, secs, i);
    var front, own := AllJobs(file, secs, i), Jobs(file, secs, i, Count(secs[i]));
    assert AllJobs(file, secs, i + 1) == front + own;
    AllPrefix(file, secs, i + 1, |secs|);
    PrefixAt(front, own, AllJobs(file, secs, |secs|), q);
  }

  lemma PrefixAt(front: seq<Entry>, own: seq<Entry>, all: seq<Entry>, q: nat)
    requires front + own <= all && q < |own|
    ensures |front| + q < |all| && all[|front| + q] == own[q]
  {
    assert (front + own)[|front| + q] == own[q];
  }

  // every relocation section can be read, and every relocation met
  ghost predicate Linkable(file: seq<Byte>, secs: seq<Sec>, env: Env) {
    && (forall i | 1 <= i < |secs| :: Readable(file, secs, i))
    && forall e | e in AllJobs(file, secs, |secs|) :: Bearable(env.ls, env.base, e)
  }

  lemma {:induction false} LinkedAll(file: seq<Byte>, secs: seq<Sec>, env: Env, m: seq<Byte>)
    requires Roomy(secs, |m|)
    ensures Relocated(file, secs, env, m).Some? <==> Linkable(file, secs, env)
    ensures Relocated(file, secs, env, m).Some? ==>
      Resolved(env.ls, env.base, AllJobs(file, secs, |secs|), Relocated(file, secs, env, m).value)
  {
    hide Resolved, Bearable;
    if forall i | 1 <= i < |secs| :: Readable(file, secs, i) {
      var jobs := AllJobs(file, secs, |secs|);
      AllInside(file, secs, |secs|, |m|);
      PassSucceeds(env, m, jobs);
      if ApplyAll(env, m, jobs).Some? {
        PassMeans(env, m, jobs);
      }
    }
  }

  /** reloc1: one entry, on the image itself. */
  method Reloc1(env: Env, img: array<Byte>, place: nat, size: nat, r: Rela) returns (ok: bool)
    requires place + size <= img.Length
    modifies img
    ensures ok <==> Apply(env, old(img[..]), Entry(place, size, r)).Some?
    ensures ok ==> Apply(env, old(img[..]), Entry(place, size, r)) == Some(img[..])
    ensures ok <==> Bearable(env.ls, env.base, Entry(place, size, r))
    ensures ok && Type(r) != R_NONE ==> Refers(env.ls, env.base, Entry(place, size, r), img[..])
    ensures !ok ==> img[..] == old(img[..])
  {
    hide Refers, Bearable;
    BearsMeant(env, Entry(place, size, r));
    var typ, symi := r.info % 0x100, r.info / 0x100;
    var sz;
    if typ == R_NONE {
      return true;
    } else if typ == R_32 || typ == R_PC32 {
      sz := 4;
    } else if typ == R_16 || typ == R_PC16 {
      sz := 2;
    } else if typ == R_8 || typ == R_PC8 {
      sz := 1;
    } else {
      return false;
    }
    if r.off > size || sz > size - r.off || symi >= |env.ls| {
      return false;
    }
    var s := 0;
    if symi != 0 {
      var l := env.ls[symi];
      if l.kind.NoKind? {
        return false;
      }
      s := l.val;
      if l.kind.Rel? {
        s := s + env.base;
      }
    }
    var p := env.base + place + r.off;
    var x := (s + r.addend) % WORD;
    if PcRelative(typ) {
      ModPlus(s + r.addend, -p, WORD);
      x := (x - p) % WORD;
    }
    assert x == Value(env, Entry(place, size, r), s);
    if !Fits(typ, S32(x)) {
      return false;
    }
    StoreField(img, place + r.off, sz, x);
    PutGet(old(img[..]), place + r.off, sz, x);
    FieldMeans(env, Entry(place, size, r), img[..]);
    return true;
  }

  method StoreField(img: array<Byte>, o: nat, n: nat, x: nat)
    requires n in {1, 2, 4} && o + n <= img.Length
    modifies img
    ensures img[..] == Put(old(img[..]), o, n, x)
  {
    if n == 4 {
      P32(img, o, x);
    } else if n == 2 {
      P16(img, o, x);
    } else {
      P8(img, o, x);
    }
    PutUnique(old(img[..]), img[..], o, n, x);
  }

  // the sections before i are relocated
  ghost predicate Done(file: seq<Byte>, secs: seq<Sec>, env: Env, m: seq<Byte>, i: nat, now: seq<Byte>) {
    && i <= |secs| && (forall k | 1 <= k < i :: Readable(file, secs, k))
    && Inside(AllJobs(file, secs, i), |m|)
    && ApplyAll(env, m, AllJobs(file, secs, i)) == Some(now)
  }

  // and so are the first k entries of section i
  ghost predicate Partly(file: seq<Byte>, secs: seq<Sec>, env: Env, m: seq<Byte>, i: nat, k: nat, now: seq<Byte>) {
    && 1 <= i < |secs| && (forall k | 1 <= k < i :: Readable(file, secs, k))
    && Applies(secs, i) && (k > 0 ==> secs[i].start + RELASZ * k <= |file|)
    && Inside(AllJobs(file, secs, i) + Jobs(file, secs, i, k), |m|)
    && ApplyAll(env, m, AllJobs(file, secs, i) + Jobs(file, secs, i, k)) == Some(now)
  }

  // entry k of section i is applied to what the entries before it made
  lemma OneMore(file: seq<Byte>, secs: seq<Sec>, env: Env, m: seq<Byte>, i: nat, k: nat, now: seq<Byte>)
    requires Partly(file, secs, env, m, i, k, now) && Roomy(secs, |m|)
    requires secs[i].start + RELASZ * (k + 1) <= |file|
    ensures |now| == |m|
    ensures var t := secs[i].info;
      var e := Entry(Offset(secs, t), secs[t].size, RelaAt(file, secs[i].start + RELASZ * k));
      && e.place + e.size <= |m|
      && (Apply(env, now, e).Some? ==> Partly(file, secs, env, m, i, k + 1, Apply(env, now, e).value))
      && (Apply(env, now, e).None? && k < Count(secs[i]) ==> Relocated(file, secs, env, m).None?)
  {
    hide Apply, Offset, RelaAt;
    var was, front := AllJobs(file, secs, i), Jobs(file, secs, i, k);
    var next := Jobs(file, secs, i, k + 1);
    var e := next[k];
    assert (was + next)[..|was| + k] == was + front by {
      assert next[..k] == front;
    }
    assert (was + next)[|was| + k] == e;
    assert e.place + e.size <= |m|;
    MoreInside(was + front, was + next, |m|);
    if Apply(env, now, e).None? && k < Count(secs[i]) && forall i | 1 <= i < |secs| :: Readable(file, secs, i) {
      RefusedHere(file, secs, env, m, i, k);
    }
  }

  lemma MoreInside(jobs: seq<Entry>, more: seq<Entry>, size: nat)
    requires Inside(jobs, size) && |more| == |jobs| + 1 && more[..|jobs|] == jobs
    requires more[|jobs|].place + more[|jobs|].size <= size
    ensures Inside(more, size)
  {
  }

  // a refused entry of section i refuses the whole
  lemma {:induction false} RefusedHere(file: seq<Byte>, secs: seq<Sec>, env: Env, m: seq<Byte>, i: nat, k: nat)
    requires 1 <= i < |secs| && (forall i | 1 <= i < |secs| :: Readable(file, secs, i)) && Roomy(secs, |m|)
    requires Applies(secs, i) && k < Count(secs[i]) && secs[i].start + RELASZ * (k + 1) <= |file|
    requires Inside(AllJobs(file, secs, i) + Jobs(file, secs, i, k + 1), |m|)
    requires ApplyAll(env, m, AllJobs(file, secs, i) + Jobs(file, secs, i, k + 1)).None?
    ensures Relocated(file, secs, env, m).None?
  {
    hide Offset, RelaAt, ApplyAll, Roomy;
    assert Readable(file, secs, i);
    var was, next, full := AllJobs(file, secs, i), Jobs(file, secs, i, k + 1), Jobs(file, secs, i, Count(secs[i]));
    var all, n := AllJobs(file, secs, |secs|), |was| + k + 1;
    AllInside(file, secs, |secs|, |m|);
    AllPrefix(file, secs, i + 1, |secs|);
    assert full[..k + 1] == next;
    assert (was + full)[..n] == was + next;
    assert all[..n] == was + next;
    RefusedStays(env, m, all, n);
  }

  lemma SectionStart(file: seq<Byte>, secs: seq<Sec>, env: Env, m: seq<Byte>, i: nat, now: seq<Byte>)
    requires 1 <= i < |secs| && Done(file, secs, env, m, i, now) && Applies(secs, i)
    ensures Partly(file, secs, env, m, i, 0, now)
  {
    assert AllJobs(file, secs, i) + Jobs(file, secs, i, 0) == AllJobs(file, secs, i);
  }

  lemma SectionEnd(file: seq<Byte>, secs: seq<Sec>, env: Env, m: seq<Byte>, i: nat, now: seq<Byte>)
    requires 1 <= i < |secs| && Partly(file, secs, env, m, i, Count(secs[i]), now)
    requires secs[secs[i].info].typ != SHT_NOBITS
    ensures Done(file, secs, env, m, i + 1, now)
  {
  }

  lemma PassOver(file: seq<Byte>, secs: seq<Sec>, env: Env, m: seq<Byte>, i: nat, now: seq<Byte>)
    requires 1 <= i < |secs| && Done(file, secs, env, m, i, now) && !Applies(secs, i)
    ensures Done(file, secs, env, m, i + 1, now)
  {
    assert AllJobs(file, secs, i + 1) == AllJobs(file, secs, i);
  }

  lemma NoneApplied(file: seq<Byte>, secs: seq<Sec>, env: Env, m: seq<Byte>)
    requires |secs| >= 1
    ensures Done(file, secs, env, m, 1, m)
  {
  }

  lemma AllDone(file: seq<Byte>, secs: seq<Sec>, env: Env, m: seq<Byte>, now: seq<Byte>)
    requires Done(file, secs, env, m, |secs|, now) && Roomy(secs, |m|)
    ensures Relocated(file, secs, env, m) == Some(now)
  {
  }

  lemma Unreadable(file: seq<Byte>, secs: seq<Sec>, env: Env, m: seq<Byte>, i: nat)
    requires 1 <= i < |secs| && !Readable(file, secs, i) && Roomy(secs, |m|)
    ensures Relocated(file, secs, env, m).None?
  {
  }

  // an entry of a chunk is the entry of the file
  lemma ChunkRela(file: seq<Byte>, o: nat, len: nat, q: nat)
    requires o + len <= |file| && q + RELASZ <= len
    ensures RelaAt(file[o..o + len], q) == RelaAt(file, o + q)
  {
  }

  /** One relocation section, RCHUNK entries at a time. */
  method RelocSection(file: seq<Byte>, secs: seq<Sec>, env: Env, img: array<Byte>, i: nat, ghost m: seq<Byte>)
    returns (ok: bool)
    requires 1 <= i < |secs| && Applies(secs, i) && secs[secs[i].info].typ != SHT_NOBITS
    requires Roomy(secs, |m|) && |m| == img.Length && Done(file, secs, env, m, i, img[..])
    modifies img
    ensures ok ==> Done(file, secs, env, m, i + 1, img[..])
    ensures !ok ==> Relocated(file, secs, env, m).None?
  {
    hide Apply, Offset, ApplyAll, Done, Partly, Relocated, Roomy, RelaAt;
    var t := secs[i].info;
    var place := TargetPlace(secs, t, |m|);
    var n, k := secs[i].size / RELASZ, 0;
    SectionStart(file, secs, env, m, i, img[..]);
    while k < n
      invariant 0 <= k <= n && Partly(file, secs, env, m, i, k, img[..])
    {
      var c := if n - k < RCHUNK then n - k else RCHUNK;
      var buf := Read(file, secs[i].start + k * RELASZ, c * RELASZ);
      if buf.None? {
        Unreadable(file, secs, env, m, i);
        return false;
      }
      var j := 0;
      while j < c
        invariant 0 <= j <= c && Partly(file, secs, env, m, i, k + j, img[..])
      {
        ChunkRela(file, secs[i].start + k * RELASZ, c * RELASZ, j * RELASZ);
        OneMore(file, secs, env, m, i, k + j, img[..]);
        var done := Reloc1(env, img, place, secs[t].size, RelaAt(buf.value, j * RELASZ));
        if !done {
          return false;
        }
        j := j + 1;
      }
      k := k + c;
    }
    SectionEnd(file, secs, env, m, i, img[..]);
    return true;
  }

  // secoff of an allocated section
  method TargetPlace(secs: seq<Sec>, t: nat, ghost size: nat) returns (place: nat)
    requires 1 <= t < |secs| && secs[t].alloc && Roomy(secs, size)
    ensures place == Offset(secs, t) && place + secs[t].size <= size
  {
    place := Offset(secs, t);
  }

  /** dlm_ld_reloc: in chunks, the pass gives what it gives in one piece. */
  method Reloc(file: seq<Byte>, secs: seq<Sec>, env: Env, img: array<Byte>) returns (ok: bool)
    requires |secs| >= 1 && Roomy(secs, img.Length)
    modifies img
    ensures ok <==> Relocated(file, secs, env, old(img[..])).Some?
    ensures ok ==> Relocated(file, secs, env, old(img[..])) == Some(img[..])
    ensures ok <==> Linkable(file, secs, env)
    ensures ok ==> Resolved(env.ls, env.base, AllJobs(file, secs, |secs|), img[..])
  {
    hide Done, Relocated, Roomy, Linkable, Resolved;
    ghost var m := img[..];
    LinkedAll(file, secs, env, m);
    NoneApplied(file, secs, env, m);
    var i := 1;
    while i < |secs|
      invariant 1 <= i <= |secs| && Done(file, secs, env, m, i, img[..])
    {
      if Applies(secs, i) {
        if secs[secs[i].info].typ == SHT_NOBITS {
          Unreadable(file, secs, env, m, i);
          return false;
        }
        ok := RelocSection(file, secs, env, img, i, m);
        if !ok {
          return false;
        }
      } else {
        PassOver(file, secs, env, m, i, img[..]);
      }
      i := i + 1;
    }
    AllDone(file, secs, env, m, img[..]);
    return true;
  }

  // ----- the contents before relocation

  // a section whose contents are in the file
  predicate Filled(secs: seq<Sec>, i: nat)
    requires i < |secs|
  {
    secs[i].alloc && secs[i].typ != SHT_NOBITS
  }

  // byte x of the image comes from section i
  predicate From(secs: seq<Sec>, i: nat, x: nat)
    requires i < |secs|
  {
    Filled(secs, i) && Offset(secs, i) <= x < Offset(secs, i) + secs[i].size
  }

  // its contents are in the file
  predicate Present(file: seq<Byte>, s: Sec) {
    s.size == 0 || s.start + s.size <= |file|
  }

  // the image after the sections before n have been read
  ghost predicate Content(file: seq<Byte>, secs: seq<Sec>, n: nat, m: seq<Byte>) {
    && n <= |secs| && (forall i | 1 <= i < n && Filled(secs, i) :: Present(file, secs[i]))
    && (forall i, x {:trigger From(secs, i, x)} | 1 <= i < n && 0 <= x < |m| && From(secs, i, x) ::
          m[x] == file[secs[i].start + (x - Offset(secs, i))])
    && (forall x | 0 <= x < |m| && (forall i | 1 <= i < n :: !From(secs, i, x)) :: m[x] == 0)
  }

  // no byte of the image comes from two sections
  lemma FromOne(secs: seq<Sec>, max: nat, i: nat, j: nat, x: nat)
    requires Accepted(secs, max) && 1 <= i < j < |secs| && From(secs, i, x)
    ensures !From(secs, j, x)
  {
    if Filled(secs, j) {
      LaidOut(secs, max, i, j);
    }
  }

  lemma ContentStep(file: seq<Byte>, secs: seq<Sec>, max: nat, n: nat, m: seq<Byte>, m': seq<Byte>)
    requires Accepted(secs, max) && 1 <= n < |secs| && Content(file, secs, n, m) && |m'| == |m|
    requires Filled(secs, n) && Present(file, secs[n])
    requires forall x | 0 <= x < |m| ::
      m'[x] == if From(secs, n, x) then file[secs[n].start + (x - Offset(secs, n))] else m[x]
    ensures Content(file, secs, n + 1, m')
  {
    hide Offset, Accepted, Filled;
    var n1 := n + 1;
    forall i, x {:trigger From(secs, i, x)} | 1 <= i < n1 && 0 <= x < |m'| && From(secs, i, x)
      ensures m'[x] == file[secs[i].start + (x - Offset(secs, i))]
    {
      if i < n {
        FromOne(secs, max, i, n, x);
      }
    }
    forall x | 0 <= x < |m'| && (forall i | 1 <= i < n1 :: !From(secs, i, x)) ensures m'[x] == 0 {
      assert !From(secs, n, x);
    }
  }

  /** dlm_ld_image, into a zeroed image: each section's contents at its place, zero everywhere else. */
  method LoadImage(file: seq<Byte>, secs: seq<Sec>, img: array<Byte>, ghost max: nat) returns (ok: bool)
    requires Accepted(secs, max) && |secs| >= 1 && EndAt(secs, |secs|) <= img.Length
    requires forall x | 0 <= x < img.Length :: img[x] == 0
    modifies img
    ensures ok <==> forall i | 1 <= i < |secs| && Filled(secs, i) :: Present(file, secs[i])
    ensures ok ==> Content(file, secs, |secs|, img[..])
  {
    hide Offset, Accepted, Content;
    AcceptedRoomy(secs, max, img.Length);
    ContentStart(file, secs, img[..]);
    var i := 1;
    while i < |secs|
      invariant 1 <= i <= |secs| && Content(file, secs, i, img[..])
      invariant forall k | 1 <= k < i && Filled(secs, k) :: Present(file, secs[k])
    {
      if Filled(secs, i) {
        var buf := Read(file, secs[i].start, secs[i].size);
        if buf.None? {
          return false;
        }
        ghost var was := img[..];
        var place := Offset(secs, i);
        forall q | 0 <= q < secs[i].size {
          img[place + q] := buf.value[q];
        }
        ContentStep(file, secs, max, i, was, img[..]);
      } else {
        ContentSkip(file, secs, i, img[..]);
      }
      i := i + 1;
    }
    return true;
  }

  lemma ContentStart(file: seq<Byte>, secs: seq<Sec>, m: seq<Byte>)
    requires |secs| >= 1 && forall x | 0 <= x < |m| :: m[x] == 0
    ensures Content(file, secs, 1, m)
  {
  }

  lemma ContentSkip(file: seq<Byte>, secs: seq<Sec>, n: nat, m: seq<Byte>)
    requires 1 <= n < |secs| && !Filled(secs, n) && Content(file, secs, n, m)
    ensures Content(file, secs, n + 1, m)
  {
  }
}

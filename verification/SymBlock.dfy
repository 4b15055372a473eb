/**
 Symbol table blocks: header, symbols, strings, and a hash of buckets and
 chains, in one run of bytes that is checked before it is trusted.
 */
module SymBlock {
  import opened Basics
  import opened Bytes

  const SYMSZ := 16
  const KSYMHDRSZ := 40
  const KSYM_MAGIC := 0x4b53594d
  const KSYM_VERSION := 1
  const SHN_ABS := 0xfff1
  const MAXSPACE := 0x8000_0000   // a space is a signed long
  const SAFE := 0x6666_6660       // below this no sum of the header's figures wraps

  // ----- header words and what they lead to

  function NSym(b: seq<Byte>): nat requires |b| >= KSYMHDRSZ { G32(b, 8) }
  function SymOff(b: seq<Byte>): nat requires |b| >= KSYMHDRSZ { G32(b, 12) }
  function StrOff(b: seq<Byte>): nat requires |b| >= KSYMHDRSZ { G32(b, 16) }
  function StrSize(b: seq<Byte>): nat requires |b| >= KSYMHDRSZ { G32(b, 20) }
  function HashOff(b: seq<Byte>): nat requires |b| >= KSYMHDRSZ { G32(b, 24) }
  function Size(b: seq<Byte>): nat requires |b| >= KSYMHDRSZ { G32(b, 36) }

  // the parts follow one another inside the block, and the hash begins there
  ghost predicate Placed(b: seq<Byte>)
    requires |b| >= KSYMHDRSZ
  {
    && S32(Size(b)) <= |b| && 1 <= NSym(b) && KSYMHDRSZ <= SymOff(b)
    && SymOff(b) + SYMSZ * NSym(b) <= StrOff(b)
    && 1 <= StrSize(b) && StrOff(b) + StrSize(b) <= HashOff(b)
    && HashOff(b) % 4 == 0 && HashOff(b) + 8 <= |b|
  }

  // and its buckets alone fit
  ghost predicate Parts(b: seq<Byte>) {
    && KSYMHDRSZ <= |b| < MAXSPACE && Placed(b)
    && 1 <= NBucket(b) <= (|b| - HashOff(b)) / 4 && G32(b, HashOff(b) + 4) == NSym(b)
  }

  // the end of the hash
  function HashEnd(b: seq<Byte>): nat
    requires |b| >= KSYMHDRSZ && HashOff(b) + 8 <= |b|
  {
    HashOff(b) + 4 * (2 + NBucket(b) + NSym(b))
  }

  // and the hash ends inside it too
  ghost predicate Framed(b: seq<Byte>) {
    Parts(b) && HashEnd(b) <= Size(b) <= |b|
  }

  function NBucket(b: seq<Byte>): nat
    requires |b| >= KSYMHDRSZ && HashOff(b) + 8 <= |b|
  {
    G32(b, HashOff(b))
  }

  // entry i of the buckets and, after them, the chains
  function Link(b: seq<Byte>, i: nat): (r: nat)
    requires |b| >= KSYMHDRSZ && HashOff(b) + 12 + 4 * i <= |b|
    ensures r < WORD
  {
    G32(b, HashOff(b) + 8 + 4 * i)
  }

  function NameOff(b: seq<Byte>, i: nat): nat
    requires |b| >= KSYMHDRSZ && SymOff(b) + SYMSZ * (i + 1) <= |b|
  {
    G32(b, SymOff(b) + SYMSZ * i)
  }

  function Value(b: seq<Byte>, i: nat): nat
    requires |b| >= KSYMHDRSZ && SymOff(b) + SYMSZ * (i + 1) <= |b|
  {
    G32(b, SymOff(b) + SYMSZ * i + 4)
  }

  function Info(b: seq<Byte>, i: nat): nat
    requires |b| >= KSYMHDRSZ && SymOff(b) + SYMSZ * (i + 1) <= |b|
  {
    G8(b, SymOff(b) + SYMSZ * i + 12)
  }

  // the magic words, and a NUL that ends the strings
  ghost predicate Marks(b: seq<Byte>) {
    Parts(b) && G32(b, 0) == KSYM_MAGIC && G32(b, 4) == KSYM_VERSION && b[StrOff(b) + StrSize(b) - 1] == 0
  }

  // the header is right
  ghost predicate Headed(b: seq<Byte>) {
    Marks(b) && Framed(b)
  }

  // the end of the hash, as a signed long, has wrapped below the size
  ghost predicate Wraps(b: seq<Byte>) {
    Marks(b) && MAXSPACE <= HashEnd(b) && S32(HashEnd(b) % WORD) <= S32(Size(b)) <= |b|
  }

  lemma NoWrap(b: seq<Byte>)
    requires |b| < SAFE
    ensures !Wraps(b)
  {
  }

  /** A space of 1.75 GB whose hash claims 64M buckets and 96M chains passes the test of the hash's end,
      which has wrapped, and is refused by no other test of the header. */
  lemma WrapsPast(b: seq<Byte>)
    requires |b| == 0x7000_0000 && G32(b, 0) == KSYM_MAGIC && G32(b, 4) == KSYM_VERSION
    requires NSym(b) == 0x600_0000 && SymOff(b) == KSYMHDRSZ && StrOff(b) == 0x6000_0028 && StrSize(b) == 1
    requires HashOff(b) == 0x6000_002C && Size(b) == |b| && b[0x6000_0028] == 0
    requires G32(b, 0x6000_002C) == 0x3FF_FFF5 && G32(b, 0x6000_0030) == 0x600_0000
    ensures Wraps(b) && !Headed(b)
  {
    hide G32;
  }

  // and every name starts inside the strings
  ghost predicate Laid(b: seq<Byte>) {
    Headed(b) && forall i | 0 <= i < NSym(b) :: NameOff(b, i) < StrSize(b)
  }

  /** A block that may be used: every offset, size, name and hash index is in range. */
  ghost predicate Usable(b: seq<Byte>) {
    && Laid(b)
    && (forall i | 0 <= i < NBucket(b) + NSym(b) :: Link(b, i) < NSym(b))
  }

  // dlm_blkcheck's tests of the header, on signed longs, in its order
  method HeadCheck(b: seq<Byte>) returns (ok: bool)
    requires |b| < MAXSPACE
    ensures ok <==> Headed(b) || Wraps(b)
  {
    if |b| < KSYMHDRSZ {
      return false;
    }
    if G32(b, 0) != KSYM_MAGIC || G32(b, 4) != KSYM_VERSION {
      return false;
    }
    hide G32, S32;
    ok := PlaceCheck(b);
    if !ok || b[StrOff(b) + StrSize(b) - 1] != 0 {
      return false;
    }
    Signs(b);
    var ho, nsym, size := HashOff(b), NSym(b), S32(G32(b, 36));
    var nb := S32(G32(b, ho));
    if nb < 1 || S32(G32(b, ho + 4)) != nsym || nb > (|b| - ho) / 4 {
      return false;
    }
    assert Marks(b);
    EndTest(b);
    ok := !(S32((ho + 4 * (2 + nb + nsym)) % WORD) > size);
  }

  // a signed long that is not negative is the word
  lemma Signs(b: seq<Byte>)
    requires KSYMHDRSZ <= |b| && HashOff(b) + 8 <= |b| && NSym(b) < MAXSPACE
    ensures NBucket(b) < WORD && S32(NBucket(b)) == if NBucket(b) < MAXSPACE then NBucket(b) else NBucket(b) - WORD
    ensures S32(G32(b, HashOff(b) + 4)) == NSym(b) <==> G32(b, HashOff(b) + 4) == NSym(b)
  {
    hide G32;
  }

  // the test of the hash's end, taken as the signed long it is
  lemma EndTest(b: seq<Byte>)
    requires Marks(b) && S32(Size(b)) <= |b|
    ensures S32(HashEnd(b) % WORD) <= S32(Size(b)) <==> Framed(b) || Wraps(b)
  {
    hide G32;
  }

  // where the parts are placed
  method PlaceCheck(b: seq<Byte>) returns (ok: bool)
    requires KSYMHDRSZ <= |b| < MAXSPACE
    ensures ok <==> Placed(b)
  {
    hide G32;
    var nsym, so, stro, strsz := S32(G32(b, 8)), S32(G32(b, 12)), S32(G32(b, 16)), S32(G32(b, 20));
    var ho, size, space := S32(G32(b, 24)), S32(G32(b, 36)), |b|;
    ok := !(size > space || nsym < 1 || nsym > space / SYMSZ || strsz < 1 ||
      strsz > space || so < KSYMHDRSZ || so > space - nsym * SYMSZ ||
      stro < so + nsym * SYMSZ || stro > space - strsz ||
      ho < stro + strsz || ho % 4 != 0 || ho > space - 8);
  }

  // every name starts inside the strings, in a header that passes
  ghost predicate NamesIn(b: seq<Byte>)
    requires Parts(b)
  {
    forall i | 0 <= i < NSym(b) :: NameOff(b, i) < StrSize(b)
  }

  // entry i of the hash, read where it is said to be: past the space, when the hash is said to be there
  function LinkAt(m: seq<Byte>, ho: nat, i: nat): nat
    requires ho + 12 + 4 * i <= |m|
  {
    G32(m, ho + 8 + 4 * i)
  }

  ghost predicate LinksIn(b: seq<Byte>, m: seq<Byte>)
    requires Parts(b) && HashEnd(b) <= |m|
  {
    forall i | 0 <= i < NBucket(b) + NSym(b) :: LinkAt(m, HashOff(b), i) < NSym(b)
  }

  /** An unusable block that passes: the end of its hash has wrapped, its names are in range, and so happen
      to be all the entries read from the space and from what lies beyond. */
  ghost predicate Misread(b: seq<Byte>, beyond: seq<Byte>) {
    Wraps(b) && HashEnd(b) <= |b + beyond| && NamesIn(b) && LinksIn(b, b + beyond)
  }

  lemma LinksHere(b: seq<Byte>, beyond: seq<Byte>)
    requires Headed(b)
    ensures Parts(b) && HashEnd(b) <= |b + beyond|
    ensures Usable(b) <==> NamesIn(b) && LinksIn(b, b + beyond)
  {
    hide G32;
    forall i | 0 <= i < NBucket(b) + NSym(b) ensures LinkAt(b + beyond, HashOff(b), i) == Link(b, i) {
      WordFront(b, beyond, HashOff(b) + 8 + 4 * i);
    }
  }

  lemma WordFront(b: seq<Byte>, beyond: seq<Byte>, o: nat)
    requires o + 4 <= |b|
    ensures G32(b + beyond, o) == G32(b, o)
  {
  }

  /** dlm_blkcheck, with what lies beyond the space: 0 for exactly the usable blocks, and those misread. */
  method BlkCheck(b: seq<Byte>, beyond: seq<Byte>) returns (ok: bool)
    requires |b| < MAXSPACE && (Wraps(b) ==> HashEnd(b) <= |b + beyond|)
    ensures ok <==> Usable(b) || Misread(b, beyond)
  {
    hide G32, Wraps, Headed;
    ok := HeadCheck(b);
    PassedFacts(b, beyond);
    if !ok {
      return;
    }
    var nsym, nb, ho, m := NSym(b), NBucket(b), HashOff(b), b + beyond;
    var i := 0;
    while i < nsym
      invariant 0 <= i <= nsym
      invariant forall k | 0 <= k < i :: NameOff(b, k) < StrSize(b)
    {
      if NameOff(b, i) >= StrSize(b) {
        return false;
      }
      i := i + 1;
    }
    i := 0;
    while i < nb + nsym
      invariant 0 <= i <= nb + nsym
      invariant forall k | 0 <= k < i :: LinkAt(m, ho, k) < nsym
    {
      if LinkAt(m, ho, i) >= nsym {
        return false;
      }
      i := i + 1;
    }
  }

  // what a header that passes says, and what is still to be tested
  lemma PassedFacts(b: seq<Byte>, beyond: seq<Byte>)
    requires Wraps(b) ==> HashEnd(b) <= |b + beyond|
    ensures Headed(b) || Wraps(b) ==> Parts(b) && HashEnd(b) <= |b + beyond| && SymOff(b) + SYMSZ * NSym(b) <= |b|
    ensures Headed(b) || Wraps(b) ==> (Usable(b) || Misread(b, beyond) <==> NamesIn(b) && LinksIn(b, b + beyond))
    ensures !(Headed(b) || Wraps(b)) ==> !Usable(b) && !Misread(b, beyond)
  {
    hide G32, LinksIn, NamesIn;
    if Headed(b) {
      LinksHere(b, beyond);
    }
  }

  // ----- names

  // the C string at offset o
  function CStr(b: seq<Byte>, o: nat): seq<Byte>
    requires o <= |b|
    decreases |b| - o
  {
    if o == |b| || b[o] == 0 then [] else [b[o]] + CStr(b, o + 1)
  }

  lemma {:induction false} CStrSplit(b: seq<Byte>, o: nat, n: nat)
    requires o + n <= |b| && forall x | o <= x < o + n :: b[x] != 0
    ensures CStr(b, o) == b[o..o + n] + CStr(b, o + n)
    decreases n
  {
    if n > 0 {
      CStrSplit(b, o + 1, n - 1);
      assert b[o..o + n] == [b[o]] + b[o + 1..o + n];
    }
  }

  lemma {:induction false} CStrFrame(b: seq<Byte>, b': seq<Byte>, o: nat, e: nat)
    requires |b'| == |b| && o <= e < |b| && b[e] == 0 && forall x | o <= x <= e :: b'[x] == b[x]
    ensures CStr(b', o) == CStr(b, o)
    decreases e - o
  {
    if b[o] != 0 {
      CStrFrame(b, b', o + 1, e);
    }
  }

  // a C string's own bytes
  predicate Proper(name: seq<Byte>) {
    0 !in name
  }

  // strcmp(b + o, name) == 0, where a NUL at e or before ends the string at o
  method StrEq(b: seq<Byte>, o: nat, name: seq<Byte>, ghost e: nat) returns (eq: bool)
    requires Proper(name) && o <= e < |b| && b[e] == 0
    ensures eq <==> CStr(b, o) == name
  {
    var i := 0;
    while i < |name| && b[o + i] == name[i]
      invariant 0 <= i <= |name| && o + i <= e
      invariant b[o..o + i] == name[..i] && forall x | o <= x < o + i :: b[x] != 0
    {
      assert name[i] in name;
      assert b[o..o + i + 1] == b[o..o + i] + [b[o + i]] && name[..i + 1] == name[..i] + [name[i]];
      i := i + 1;
    }
    CStrSplit(b, o, i);
    assert name == name[..i] + name[i..];
    eq := i == |name| && b[o + i] == 0;
  }

  ghost function Name(b: seq<Byte>, i: nat): seq<Byte>
    requires Laid(b) && i < NSym(b)
  {
    CStr(b, StrOff(b) + NameOff(b, i))
  }

  // ----- the ELF hash

  function HashStep(h: bv32, c: Byte): bv32 {
    var h1 := (h << 4) + (c as bv32);
    var g := h1 & 0xf000_0000;
    (if g != 0 then h1 ^ (g >> 24) else h1) & !g
  }

  function HashFrom(h: bv32, name: seq<Byte>): bv32
    decreases |name|
  {
    if name == [] then h else HashFrom(HashStep(h, name[0]), name[1..])
  }

  function ElfHash(name: seq<Byte>): nat {
    HashFrom(0, name) as nat
  }

  // the top four bits are always folded in
  lemma {:induction false} HashBound(h: bv32, name: seq<Byte>)
    requires h < 0x1000_0000
    ensures HashFrom(h, name) < 0x1000_0000
    decreases |name|
  {
    if name != [] {
      StepBound(h, name[0]);
      HashBound(HashStep(h, name[0]), name[1..]);
    }
  }

  lemma StepBound(h: bv32, c: Byte)
    ensures HashStep(h, c) < 0x1000_0000
  {
  }

  lemma {:induction false} HashOver(h: bv32)
    ensures HashFrom(h, []) == h
  {
  }

  lemma HashAt(h: bv32, s: seq<Byte>, k: nat, c: Byte, h1: bv32)
    requires k < |s| && s[k] == c && HashStep(h, c) == h1
    ensures HashFrom(h, s[k..]) == HashFrom(h1, s[k + 1..])
  {
    assert s[k..][1..] == s[k + 1..];
  }

  /** The hash of "syscall", the last character of which is folded in at the top. */
  lemma HashSyscall()
    ensures ElfHash([0x73, 0x79, 0x73, 0x63, 0x61, 0x6c, 0x6c]) == 0xb09985c
  {
    hide HashFrom;
    var s := [0x73, 0x79, 0x73, 0x63, 0x61, 0x6c, 0x6c];
    assert s[0..] == s && s[7..] == [];
    HashOver(0xb09985c);
    HashAt(0, s, 0, 0x73, 0x73);
    HashAt(0x73, s, 1, 0x79, 0x7a9);
    HashAt(0x7a9, s, 2, 0x73, 0x7b03);
    HashAt(0x7b03, s, 3, 0x63, 0x7b093);
    HashAt(0x7b093, s, 4, 0x61, 0x7b0991);
    HashAt(0x7b0991, s, 5, 0x6c, 0x7b0997c);
    HashAt(0x7b0997c, s, 6, 0x6c, 0xb09985c);
  }

  method Hash(name: seq<Byte>) returns (r: nat)
    ensures r == ElfHash(name)
  {
    var h: bv32, i := 0, 0;
    assert name[0..] == name;
    while i < |name|
      invariant 0 <= i <= |name|
      invariant HashFrom(h, name[i..]) == HashFrom(0, name)
    {
      assert name[i..][1..] == name[i+1..];
      h := HashStep(h, name[i]);
      i := i + 1;
    }
    return h as nat;
  }

  // ----- lookup

  // the first symbol of a name's bucket, and the next of a symbol's chain; 0 ends it
  function First(b: seq<Byte>, k: nat): (r: nat)
    requires Usable(b) && k < NBucket(b)
    ensures r < NSym(b)
  {
    Link(b, k)
  }

  function Next(b: seq<Byte>, i: nat): (r: nat)
    requires Usable(b) && i < NSym(b)
    ensures r < NSym(b)
  {
    Link(b, NBucket(b) + i)
  }

  // the symbol a walk along the chains from i finds within fuel steps, or 0
  ghost function Walk(b: seq<Byte>, name: seq<Byte>, i: nat, fuel: nat): nat
    requires Usable(b) && i < NSym(b)
    decreases fuel
  {
    if i == 0 || fuel == 0 then 0
    else if Name(b, i) == name then i
    else Walk(b, name, Next(b, i), fuel - 1)
  }

  lemma UsableFits(b: seq<Byte>)
    requires Usable(b)
    ensures Framed(b) && SymOff(b) + SYMSZ * NSym(b) <= |b|
  {
  }

  method NameIs(b: seq<Byte>, i: nat, name: seq<Byte>) returns (eq: bool)
    requires Usable(b) && Proper(name) && i < NSym(b)
    ensures eq <==> Name(b, i) == name
  {
    eq := StrEq(b, StrOff(b) + NameOff(b, i), name, StrOff(b) + StrSize(b) - 1);
  }

  /** dlm_blklookup.  On any usable block, whatever its chains - cyclic ones included - the walk
      ends inside the block; what it returns is a symbol of that name. */
  method BlkLookup(b: seq<Byte>, name: seq<Byte>) returns (found: nat, val: nat, info: nat)
    requires Usable(b) && Proper(name)
    ensures found == Walk(b, name, First(b, ElfHash(name) % NBucket(b)), NSym(b))
    ensures found != 0 ==>
      found < NSym(b) && Name(b, found) == name && val == Value(b, found) && info == Info(b, found)
  {
    UsableFits(b);
    hide Usable;
    val, info := 0, 0;
    var h := Hash(name);
    var nsym := NSym(b);
    var i, n := First(b, h % NBucket(b)), 0;
    ghost var goal := Walk(b, name, i, nsym);
    while i != 0 && n < nsym
      invariant 0 <= i < nsym && 0 <= n <= nsym
      invariant Walk(b, name, i, nsym - n) == goal
      decreases nsym - n
    {
      n := n + 1;
      var eq := NameIs(b, i, name);
      if eq {
        return i, Value(b, i), Info(b, i);
      }
      i := Next(b, i);
    }
    return 0, 0, 0;
  }

  // ----- a hash as dlm_blkhash fills it

  // the bucket of each symbol's name
  ghost function Hashes(b: seq<Byte>): (hs: seq<nat>)
    requires Laid(b)
    ensures |hs| == NSym(b) && forall i | 0 <= i < |hs| :: hs[i] == ElfHash(Name(b, i)) % NBucket(b)
  {
    seq(NSym(b), i requires 0 <= i < NSym(b) => ElfHash(Name(b, i)) % NBucket(b))
  }

  // the last of the symbols 1 .. n-1 in bucket k, or 0
  ghost function LastWith(hs: seq<nat>, n: nat, k: nat): (r: nat)
    requires n <= |hs|
    ensures r == 0 || r < n
  {
    if n <= 1 then 0 else if hs[n-1] == k then n - 1 else LastWith(hs, n - 1, k)
  }

  // each bucket starts at its last symbol, and each chain goes on to the last one before
  ghost predicate Hashed(b: seq<Byte>)
    requires Usable(b)
  {
    && (forall k | 0 <= k < NBucket(b) :: First(b, k) == LastWith(Hashes(b), NSym(b), k))
    && (forall i | 1 <= i < NSym(b) :: Next(b, i) == LastWith(Hashes(b), i, Hashes(b)[i]))
  }

  // the last of the symbols 1 .. n-1 of that name, or 0
  ghost function LastNamed(b: seq<Byte>, n: nat, name: seq<Byte>): (r: nat)
    requires Laid(b) && n <= NSym(b)
    ensures r == 0 || (r < n && Name(b, r) == name)
    ensures forall i | r < i < n :: Name(b, i) != name
  {
    if n <= 1 then 0 else if Name(b, n - 1) == name then n - 1 else LastNamed(b, n - 1, name)
  }

  lemma {:induction false} WalkIsLast(b: seq<Byte>, name: seq<Byte>, n: nat, fuel: nat)
    requires Usable(b) && Hashed(b) && 1 <= n <= NSym(b) && fuel >= n - 1
    ensures Walk(b, name, LastWith(Hashes(b), n, ElfHash(name) % NBucket(b)), fuel) == LastNamed(b, n, name)
    decreases n
  {
    hide Usable, Laid, Framed, Name, ElfHash, First, Next, Hashed, Hashes, NSym, NBucket, HashOff;
    ChainAt(b, n - 1);
    if n > 1 {
      var j := n - 1;
      if Hashes(b)[j] != ElfHash(name) % NBucket(b) {
        WalkIsLast(b, name, j, fuel);
      } else if Name(b, j) != name {
        WalkIsLast(b, name, j, fuel - 1);
      }
    }
  }

  lemma {:induction false} ChainAt(b: seq<Byte>, j: nat)
    requires Usable(b) && Hashed(b) && j < NSym(b)
    ensures |b| >= KSYMHDRSZ && HashOff(b) + 8 <= |b| && NBucket(b) > 0
    ensures Framed(b) && Laid(b) && j < |Hashes(b)| == NSym(b)
    ensures j > 0 ==> Next(b, j) == LastWith(Hashes(b), j, Hashes(b)[j])
    ensures Hashes(b)[j] == ElfHash(Name(b, j)) % NBucket(b)
  {
  }

  /** On a table as built, lookup finds a name exactly when it is there, and its last entry. */
  lemma {:induction false} LookupIsLast(b: seq<Byte>, name: seq<Byte>)
    requires Usable(b) && Hashed(b)
    ensures Walk(b, name, First(b, ElfHash(name) % NBucket(b)), NSym(b)) == LastNamed(b, NSym(b), name)
    ensures LastNamed(b, NSym(b), name) == 0 <==> forall i | 1 <= i < NSym(b) :: Name(b, i) != name
  {
    WalkIsLast(b, name, NSym(b), NSym(b));
  }

  // the table a block stands for: each name with the value of its last entry
  ghost function TableOf(b: seq<Byte>): map<seq<Byte>, nat>
    requires Usable(b)
  {
    var names := set i | 1 <= i < NSym(b) :: Name(b, i);
    map n | n in names :: if LastNamed(b, NSym(b), n) == 0 then 0 else Value(b, LastNamed(b, NSym(b), n))
  }

  /** So on a table as built, lookup is the lookup in that map. */
  lemma {:induction false} LookupIsTable(b: seq<Byte>, name: seq<Byte>)
    requires Usable(b) && Hashed(b)
    ensures var i := Walk(b, name, First(b, ElfHash(name) % NBucket(b)), NSym(b));
      && i < NSym(b) && (i != 0 <==> name in TableOf(b))
      && (i != 0 ==> Value(b, i) == TableOf(b)[name])
  {
    hide Usable, Laid, Walk, Hashed, First, Name;
    TableFacts(b);
    LookupIsLast(b, name);
  }

  lemma {:induction false} TableAt(b: seq<Byte>, name: seq<Byte>)
    requires Usable(b)
    ensures Laid(b) && SymOff(b) + SYMSZ * NSym(b) <= |b|
    ensures var r := LastNamed(b, NSym(b), name);
      (name in TableOf(b) <==> r != 0) && (r != 0 ==> r < NSym(b) && TableOf(b)[name] == Value(b, r))
  {
    hide Usable, Laid, Name;
    TableFacts(b);
  }

  // a symbol of that name is the last one or comes before it
  lemma {:induction false} LastIsLater(b: seq<Byte>, i: nat)
    requires Laid(b) && 1 <= i < NSym(b)
    ensures var r := LastNamed(b, NSym(b), Name(b, i)); r != 0 && i <= r < NSym(b) && Name(b, r) == Name(b, i)
  {
    hide Laid, Name;
  }

  lemma TableFacts(b: seq<Byte>)
    requires Usable(b)
    ensures Laid(b) && Framed(b) && SymOff(b) + SYMSZ * NSym(b) <= |b|
  {
  }

  // ----- the search by address

  // sections and file names are not addresses
  predicate Named(info: nat) {
    info % 16 != 3 && info % 16 != 4
  }

  ghost predicate Below(b: seq<Byte>, i: nat, addr: nat)
    requires Laid(b) && i < NSym(b)
  {
    Named(Info(b, i)) && Value(b, i) <= addr
  }

  /** dlm_blkaddr: the first of the symbols with the greatest value not above addr. */
  method BlkAddr(b: seq<Byte>, addr: nat) returns (best: nat, off: nat)
    requires Usable(b)
    ensures best == 0 ==> forall i | 1 <= i < NSym(b) :: !Below(b, i, addr)
    ensures best != 0 ==> best < NSym(b) && Below(b, best, addr) && off == addr - Value(b, best)
    ensures best != 0 ==> forall i | 1 <= i < NSym(b) && Below(b, i, addr) ::
      Value(b, i) < Value(b, best) || (Value(b, i) == Value(b, best) && best <= i)
  {
    UsableFits(b);
    var nsym := NSym(b);
    hide Headed, G32;
    best, off := 0, 0;
    var bv := 0;
    var i := 1;
    while i < nsym
      invariant 1 <= i <= nsym
      invariant best == 0 ==> forall k | 1 <= k < i :: !Below(b, k, addr)
      invariant best != 0 ==> best < i && Below(b, best, addr) && bv == Value(b, best)
      invariant best != 0 ==> forall k | 1 <= k < i && Below(b, k, addr) ::
        Value(b, k) < bv || (Value(b, k) == bv && best <= k)
    {
      if Named(Info(b, i)) {
        var v := Value(b, i);
        if v <= addr && (best == 0 || v > bv) {
          best, bv := i, v;
        }
      }
      i := i + 1;
    }
    if best != 0 {
      off := addr - bv;
    }
  }

  // ----- the builder

  // hashoff, dlm_blksize
  function HashOffset(nsym: nat, strsize: nat): (r: nat)
    ensures r % 4 == 0 && KSYMHDRSZ + nsym * SYMSZ + strsize <= r < KSYMHDRSZ + nsym * SYMSZ + strsize + 4
  {
    var x := KSYMHDRSZ + nsym * SYMSZ + strsize + 3;
    x - x % 4
  }

  function BlkSize(nsym: nat, strsize: nat, nbucket: nat): nat {
    HashOffset(nsym, strsize) + 4 * (2 + nbucket + nsym)
  }

  // the header dlm_blkinit writes
  ghost predicate Inited(b: seq<Byte>, nsym: nat, strsize: nat, nbucket: nat) {
    && |b| == BlkSize(nsym, strsize, nbucket) && |b| < MAXSPACE && nsym >= 1 && strsize >= 1 && nbucket >= 1
    && G32(b, 0) == KSYM_MAGIC && G32(b, 4) == KSYM_VERSION
    && NSym(b) == nsym && SymOff(b) == KSYMHDRSZ && StrOff(b) == KSYMHDRSZ + nsym * SYMSZ
    && StrSize(b) == strsize && HashOff(b) == HashOffset(nsym, strsize)
    && Size(b) == |b| && G32(b, HashOff(b)) == nbucket && G32(b, HashOff(b) + 4) == nsym
  }

  lemma FieldKept(m: seq<Byte>, m': seq<Byte>, o: nat, n: nat, p: nat)
    requires Only(m, m', o, n) && p + 4 <= |m| && (p + 4 <= o || o + n <= p)
    ensures G32(m', p) == G32(m, p)
  {
  }

  // the ten header words
  function Header(nsym: nat, strsize: nat, nbucket: nat, lo: nat, hi: nat): seq<nat> {
    [KSYM_MAGIC, KSYM_VERSION, nsym, KSYMHDRSZ, KSYMHDRSZ + nsym * SYMSZ,
     strsize, HashOffset(nsym, strsize), lo % WORD, hi % WORD, BlkSize(nsym, strsize, nbucket)]
  }

  method PutHeader(a: array<Byte>, nsym: nat, strsize: nat, nbucket: nat, lo: nat, hi: nat)
    requires a.Length == BlkSize(nsym, strsize, nbucket) && a.Length < MAXSPACE
    modifies a
    ensures Words(a[..], Header(nsym, strsize, nbucket, lo, hi)) && Only(old(a[..]), a[..], 0, KSYMHDRSZ)
  {
    hide G32, Words;
    ghost var v := Header(nsym, strsize, nbucket, lo, hi);
    NoWords(a[..]);
    assert v[..0] == [];
    PutWord(a, 0, KSYM_MAGIC, v);
    PutWord(a, 4, KSYM_VERSION, v);
    PutWord(a, 8, nsym, v);
    PutWord(a, 12, KSYMHDRSZ, v);
    PutWord(a, 16, KSYMHDRSZ + nsym * SYMSZ, v);
    PutWord(a, 20, strsize, v);
    PutWord(a, 24, HashOffset(nsym, strsize), v);
    PutWord(a, 28, lo, v);
    PutWord(a, 32, hi, v);
    PutWord(a, 36, BlkSize(nsym, strsize, nbucket), v);
    assert v[..10] == v;
  }

  method BlkInit(a: array<Byte>, nsym: nat, strsize: nat, nbucket: nat, lo: nat, hi: nat)
    requires a.Length == BlkSize(nsym, strsize, nbucket) && a.Length < MAXSPACE
    requires nsym >= 1 && strsize >= 1 && nbucket >= 1
    modifies a
    ensures Inited(a[..], nsym, strsize, nbucket)
    ensures G32(a[..], 28) == lo % WORD && G32(a[..], 32) == hi % WORD
    ensures Same(old(a[..]), a[..], KSYMHDRSZ, HashOffset(nsym, strsize))
    ensures Same(old(a[..]), a[..], HashOffset(nsym, strsize) + 8, a.Length)
  {
    hide G32;
    var h := HashOffset(nsym, strsize);
    ghost var v := Header(nsym, strsize, nbucket, lo, hi);
    PutHeader(a, nsym, strsize, nbucket, lo, hi);
    ghost var m0 := a[..];
    P32(a, h, nbucket);
    WordsKept(m0, a[..], h, v);
    ghost var m1 := a[..];
    P32(a, h + 4, nsym);
    WordsKept(m1, a[..], h + 4, v);
    FieldKept(m1, a[..], h + 4, 4, h);
    assert v[0] == KSYM_MAGIC && v[1] == KSYM_VERSION && v[2] == nsym && v[3] == KSYMHDRSZ;
    assert v[7] == lo % WORD && v[8] == hi % WORD;
    assert v[4] == KSYMHDRSZ + nsym * SYMSZ && v[5] == strsize && v[6] == h && v[9] == a.Length;
  }

  // the words from the start of the block
  ghost predicate Words(m: seq<Byte>, v: seq<nat>) {
    4 * |v| <= |m| && forall i {:trigger v[i]} | 0 <= i < |v| :: G32(m, 4 * i) == v[i]
  }

  lemma WordsKept(m: seq<Byte>, m': seq<Byte>, o: nat, v: seq<nat>)
    requires Words(m, v) && Only(m, m', o, 4) && 4 * |v| <= o
    ensures Words(m', v)
  {
    forall i | 0 <= i < |v| ensures G32(m', 4 * i) == v[i] {
      FieldKept(m, m', o, 4, 4 * i);
    }
  }

  lemma NoWords(m: seq<Byte>)
    ensures Words(m, [])
  {
  }

  // the next of the words v
  method PutWord(a: array<Byte>, o: nat, x: nat, ghost v: seq<nat>)
    requires o % 4 == 0 && o / 4 < |v| && o + 4 <= a.Length
    requires Words(a[..], v[..o / 4]) && v[o / 4] == x % WORD
    modifies a
    ensures Words(a[..], v[..o / 4 + 1]) && Only(old(a[..]), a[..], o, 4)
  {
    hide G32;
    P32(a, o, x);
    WordsKept(old(a[..]), a[..], o, v[..o / 4]);
  }

  // the two blocks agree up to the hash entries
  ghost predicate SameFront(m: seq<Byte>, m': seq<Byte>)
    requires |m| >= KSYMHDRSZ
  {
    |m'| == |m| && Same(m, m', 0, HashOff(m) + 8)
  }

  lemma WordSame(m: seq<Byte>, m': seq<Byte>, hi: nat, p: nat)
    requires |m'| == |m| && Same(m, m', 0, hi) && p + 4 <= hi && p + 4 <= |m|
    ensures G32(m', p) == G32(m, p)
  {
  }

  // what is read of a laid-out block before its hash entries
  lemma FrontKept(m: seq<Byte>, m': seq<Byte>)
    requires Laid(m) && SameFront(m, m')
    ensures Laid(m') && NSym(m') == NSym(m) && NBucket(m') == NBucket(m) && HashOff(m') == HashOff(m)
    ensures Size(m') == Size(m) && StrOff(m') == StrOff(m) && SymOff(m') == SymOff(m) && StrSize(m') == StrSize(m)
    ensures forall i | 0 <= i < NSym(m) :: NameOff(m', i) == NameOff(m, i)
  {
    hide G32;
    var hi := HashOff(m) + 8;
    WordSame(m, m', hi, 0);
    WordSame(m, m', hi, 4);
    WordSame(m, m', hi, 8);
    WordSame(m, m', hi, 12);
    WordSame(m, m', hi, 16);
    WordSame(m, m', hi, 20);
    WordSame(m, m', hi, 24);
    WordSame(m, m', hi, 36);
    WordSame(m, m', hi, HashOff(m));
    WordSame(m, m', hi, HashOff(m) + 4);
    forall i | 0 <= i < NSym(m) ensures NameOff(m', i) == NameOff(m, i) {
      WordSame(m, m', hi, SymOff(m) + SYMSZ * i);
    }
  }

  lemma NamesKept(m: seq<Byte>, m': seq<Byte>)
    requires Laid(m) && SameFront(m, m')
    ensures Laid(m') && NSym(m') == NSym(m) && forall i | 0 <= i < NSym(m) :: Name(m', i) == Name(m, i)
    ensures Hashes(m') == Hashes(m)
  {
    hide G32, ElfHash;
    FrontKept(m, m');
    forall i | 0 <= i < NSym(m) ensures Name(m', i) == Name(m, i) {
      CStrFrame(m, m', StrOff(m) + NameOff(m, i), StrOff(m) + StrSize(m) - 1);
    }
  }

  // one hash entry changed
  lemma LinkPut(m: seq<Byte>, m': seq<Byte>, i: nat, v: nat)
    requires Laid(m) && i < NBucket(m) + NSym(m)
    requires Only(m, m', HashOff(m) + 8 + 4 * i, 4) && G32(m', HashOff(m) + 8 + 4 * i) == v
    ensures SameFront(m, m') && Laid(m') && NBucket(m') == NBucket(m) && NSym(m') == NSym(m) && Size(m') == Size(m)
    ensures HashOff(m') == HashOff(m)
    ensures Link(m', i) == v
    ensures forall j | 0 <= j < NBucket(m) + NSym(m) && j != i :: Link(m', j) == Link(m, j)
  {
    FrontKept(m, m');
    forall j | 0 <= j < NBucket(m) + NSym(m) && j != i ensures Link(m', j) == Link(m, j) {
      FieldKept(m, m', HashOff(m) + 8 + 4 * i, 4, HashOff(m) + 8 + 4 * j);
    }
  }

  method PutLink(a: array<Byte>, i: nat, v: nat)
    requires Laid(a[..]) && i < NBucket(a[..]) + NSym(a[..]) && v < WORD
    modifies a
    ensures SameFront(old(a[..]), a[..]) && Laid(a[..])
    ensures NBucket(a[..]) == old(NBucket(a[..])) && NSym(a[..]) == old(NSym(a[..]))
    ensures HashOff(a[..]) == old(HashOff(a[..])) && Link(a[..], i) == v
    ensures forall j | 0 <= j < NBucket(a[..]) + NSym(a[..]) && j != i :: Link(a[..], j) == old(Link(a[..], j))
  {
    hide G32, Headed;
    ghost var m := a[..];
    LaidSize(m);
    P32(a, HashOff(a[..]) + 8 + 4 * i, v);
    LinkPut(m, a[..], i, v);
  }

  // the hash holds the symbols 1 .. n-1
  ghost predicate HashedTo(m: seq<Byte>, hs: seq<nat>, n: nat)
    requires Laid(m) && |hs| == NSym(m) && n <= |hs|
  {
    && (forall k | 0 <= k < NBucket(m) :: Link(m, k) == LastWith(hs, n, k))
    && (forall j | NBucket(m) < j < NBucket(m) + n :: Link(m, j) == LastWith(hs, j - NBucket(m), hs[j - NBucket(m)]))
    && (forall j | NBucket(m) <= j < NBucket(m) + NSym(m) && (j == NBucket(m) || NBucket(m) + n <= j) ::
          Link(m, j) == 0)
  }

  // one more symbol, put in front of its bucket
  lemma HashedOne(m: seq<Byte>, m': seq<Byte>, hs: seq<nat>, n: nat)
    requires Laid(m) && Laid(m') && NSym(m') == NSym(m) && NBucket(m') == NBucket(m) && |hs| == NSym(m)
    requires 1 <= n < |hs| && HashedTo(m, hs, n) && hs[n] < NBucket(m)
    requires Link(m', hs[n]) == n && Link(m', NBucket(m) + n) == Link(m, hs[n])
    requires forall j | 0 <= j < NBucket(m) + NSym(m) && j != hs[n] && j != NBucket(m) + n :: Link(m', j) == Link(m, j)
    ensures HashedTo(m', hs, n + 1)
  {
    hide Link, Headed, NSym, NBucket;
  }

  lemma HashedDone(m: seq<Byte>, hs: seq<nat>)
    requires Laid(m) && hs == Hashes(m) && HashedTo(m, hs, NSym(m))
    ensures Usable(m) && Hashed(m)
  {
    hide Link, Headed, NBucket, ElfHash, Name;
    LaidSize(m);
  }

  lemma HashedNone(m: seq<Byte>, hs: seq<nat>)
    requires Laid(m) && hs == Hashes(m) && forall j | 0 <= j < NBucket(m) + NSym(m) :: Link(m, j) == 0
    ensures HashedTo(m, hs, 1)
  {
    hide Link, Headed, NBucket, ElfHash, Name;
    LaidSize(m);
  }

  // between two symbols of dlm_blkhash
  ghost predicate Hashing(m0: seq<Byte>, m: seq<Byte>, n: nat) {
    && Laid(m0) && SameFront(m0, m) && Laid(m) && NSym(m) == NSym(m0)
    && 1 <= n <= NSym(m0) && HashedTo(m, Hashes(m0), n)
  }

  method HashOne(a: array<Byte>, i: nat, ghost m0: seq<Byte>)
    requires Hashing(m0, a[..], i) && i < NSym(m0)
    modifies a
    ensures Hashing(m0, a[..], i + 1)
  {
    hide Headed, HashedTo, G32, Name, ElfHash, SameFront, NSym, NBucket, Link, Laid;
    NamesKept(m0, a[..]);
    FrontKept(m0, a[..]);
    LaidSize(m0);
    LaidSize(a[..]);
    var h := NameHash(a[..], i);
    var nb := NBucket(a[..]);
    var k := h % nb;
    ghost var m1 := a[..];
    var l := Link(a[..], k);
    PutLink(a, nb + i, l);
    FrontTrans(m0, m1, a[..]);
    ghost var m2 := a[..];
    PutLink(a, k, i);
    FrontTrans(m0, m2, a[..]);
    HashedOne(m1, a[..], Hashes(m0), i);
  }

  lemma LaidSize(m: seq<Byte>)
    requires Laid(m)
    ensures |m| >= KSYMHDRSZ && HashOff(m) + 8 + 4 * (NBucket(m) + NSym(m)) <= |m| < MAXSPACE
    ensures NBucket(m) >= 1 && NSym(m) >= 1
  {
  }

  lemma FrontTrans(m0: seq<Byte>, m1: seq<Byte>, m2: seq<Byte>)
    requires |m0| >= KSYMHDRSZ && |m1| >= KSYMHDRSZ && HashOff(m1) == HashOff(m0)
    requires SameFront(m0, m1) && SameFront(m1, m2)
    ensures SameFront(m0, m2)
  {
  }

  /** dlm_blkhash: from an empty hash, every name in its bucket; the rest of the block is untouched. */
  method BlkHash(a: array<Byte>)
    requires Laid(a[..]) && forall i | 0 <= i < NBucket(a[..]) + NSym(a[..]) :: Link(a[..], i) == 0
    modifies a
    ensures SameFront(old(a[..]), a[..]) && Usable(a[..]) && Hashed(a[..])
  {
    hide Hashed, HashedTo, Hashes, Headed, G32;
    ghost var m0 := a[..];
    LaidSize(m0);
    HashedNone(m0, Hashes(m0));
    var nsym := NSym(a[..]);
    var i := 1;
    while i < nsym
      invariant 1 <= i <= nsym && Hashing(m0, a[..], i)
    {
      HashOne(a, i, m0);
      i := i + 1;
    }
    NamesKept(m0, a[..]);
    HashedDone(a[..], Hashes(m0));
  }

  method NameHash(b: seq<Byte>, i: nat) returns (h: nat)
    requires Laid(b) && i < NSym(b)
    ensures h == ElfHash(Name(b, i))
  {
    hide G32, HashStep;
    var h32: bv32, o := 0, StrOff(b) + NameOff(b, i);
    ghost var e := StrOff(b) + StrSize(b) - 1;
    while b[o] != 0
      invariant o <= e && b[e] == 0
      invariant HashFrom(h32, CStr(b, o)) == HashFrom(0, Name(b, i))
      decreases e - o
    {
      assert CStr(b, o)[1..] == CStr(b, o + 1);
      h32 := HashStep(h32, b[o]);
      o := o + 1;
    }
    return h32 as nat;
  }

  // ----- a module's table: dlm_ld_table

  // a symbol of the file: name offset, run-time value, size, type and binding, and the ls_tab mark
  datatype Entry = Entry(name: nat, value: nat, size: nat, info: Byte, tab: bool)

  function Marked(es: seq<Entry>): (r: seq<Entry>)
    ensures |r| <= |es| && forall e | e in r :: e in es
  {
    if es == [] then []
    else Marked(es[..|es|-1]) + (if es[|es|-1].tab then [es[|es|-1]] else [])
  }

  lemma MarkedSnoc(es: seq<Entry>, i: nat)
    requires i < |es|
    ensures Marked(es[..i+1]) == Marked(es[..i]) + (if es[i].tab then [es[i]] else [])
  {
    assert es[..i+1][..i] == es[..i];
  }

  lemma {:induction false} MarkedPrefix(es: seq<Entry>, i: nat)
    requires i <= |es|
    ensures |Marked(es[..i])| <= |Marked(es)|
    decreases |es|
  {
    if i == |es| {
      assert es[..i] == es;
    } else {
      assert es[..|es|-1][..i] == es[..i];
      MarkedPrefix(es[..|es|-1], i);
    }
  }

  // symbol k of the block is entry e
  ghost predicate Holds(m: seq<Byte>, k: nat, e: Entry)
    requires |m| >= KSYMHDRSZ + SYMSZ * (k + 1)
  {
    var o := KSYMHDRSZ + SYMSZ * k;
    && G32(m, o) == e.name && G32(m, o + 4) == e.value % WORD && G32(m, o + 8) == e.size % WORD
    && G8(m, o + 12) == e.info && G16(m, o + 14) == SHN_ABS
  }

  // the entries of t are symbols 1 .. |t|, and symbol 0 is null
  ghost predicate HoldsAll(m: seq<Byte>, t: seq<Entry>) {
    && |m| >= KSYMHDRSZ + SYMSZ * (|t| + 1)
    && G32(m, KSYMHDRSZ) == 0
    && forall j | 0 <= j < |t| :: Holds(m, j + 1, t[j])
  }

  lemma HoldsKept(m: seq<Byte>, m': seq<Byte>, lo: nat, t: seq<Entry>)
    requires HoldsAll(m, t) && |m'| == |m| && Same(m, m', KSYMHDRSZ, lo) && lo >= KSYMHDRSZ + SYMSZ * (|t| + 1)
    ensures HoldsAll(m', t)
  {
    forall j | 0 <= j < |t| ensures Holds(m', j + 1, t[j]) {
      assert Holds(m, j + 1, t[j]);
    }
  }

  lemma HoldsOne(m: seq<Byte>, m': seq<Byte>, t: seq<Entry>, e: Entry)
    requires HoldsAll(m, t) && |m| >= KSYMHDRSZ + SYMSZ * (|t| + 2)
    requires Only(m, m', KSYMHDRSZ + SYMSZ * (|t| + 1), SYMSZ) && Holds(m', |t| + 1, e)
    ensures HoldsAll(m', t + [e])
  {
    HoldsKept(m, m', KSYMHDRSZ + SYMSZ * (|t| + 1), t);
  }

  // one symbol entry: its section index is SHN_ABS
  method PutSym(a: array<Byte>, k: nat, e: Entry)
    requires KSYMHDRSZ + SYMSZ * (k + 1) <= a.Length && e.name < WORD
    modifies a
    ensures Only(old(a[..]), a[..], KSYMHDRSZ + SYMSZ * k, SYMSZ) && Holds(a[..], k, e)
  {
    var o := KSYMHDRSZ + SYMSZ * k;
    P32(a, o, e.name);
    ghost var m1 := a[..];
    P32(a, o + 4, e.value);
    FieldKept(m1, a[..], o + 4, 4, o);
    ghost var m2 := a[..];
    P32(a, o + 8, e.size);
    FieldKept(m2, a[..], o + 8, 4, o);
    FieldKept(m2, a[..], o + 8, 4, o + 4);
    ghost var m3 := a[..];
    a[o + 12] := e.info;
    FieldKept(m3, a[..], o + 12, 1, o);
    FieldKept(m3, a[..], o + 12, 1, o + 4);
    FieldKept(m3, a[..], o + 12, 1, o + 8);
    ghost var m4 := a[..];
    P16(a, o + 14, SHN_ABS);
    FieldKept(m4, a[..], o + 14, 2, o);
    FieldKept(m4, a[..], o + 14, 2, o + 4);
    FieldKept(m4, a[..], o + 14, 2, o + 8);
  }

  // the marked symbols, one after the other, behind the null symbol
  method PutSyms(a: array<Byte>, es: seq<Entry>)
    requires KSYMHDRSZ + SYMSZ * (|Marked(es)| + 1) <= a.Length
    requires G32(a[..], KSYMHDRSZ) == 0 && forall e | e in es :: e.name < WORD
    modifies a
    ensures HoldsAll(a[..], Marked(es))
    ensures Only(old(a[..]), a[..], KSYMHDRSZ + SYMSZ, SYMSZ * |Marked(es)|)
  {
    hide G32, Holds;
    assert es[..|es|] == es;
    var k := 1;
    for i := 0 to |es|
      invariant k == |Marked(es[..i])| + 1
      invariant HoldsAll(a[..], Marked(es[..i]))
      invariant Only(old(a[..]), a[..], KSYMHDRSZ + SYMSZ, SYMSZ * (k - 1))
    {
      MarkedSnoc(es, i);
      MarkedPrefix(es, i + 1);
      if es[i].tab {
        ghost var m := a[..];
        PutSym(a, k, es[i]);
        HoldsOne(m, a[..], Marked(es[..i]), es[i]);
        k := k + 1;
      }
    }
  }

  // copy the strings in
  method PutStrings(a: array<Byte>, o: nat, str: seq<Byte>)
    requires o + |str| <= a.Length
    modifies a
    ensures a[o..o + |str|] == str && Only(old(a[..]), a[..], o, |str|)
  {
    var i := 0;
    while i < |str|
      invariant 0 <= i <= |str|
      invariant a[o..o + i] == str[..i]
      invariant Only(old(a[..]), a[..], o, i)
    {
      a[o + i] := str[i];
      i := i + 1;
    }
  }

  lemma ZeroWord(m: seq<Byte>, p: nat)
    requires p + 4 <= |m| && m[p] == 0 && m[p+1] == 0 && m[p+2] == 0 && m[p+3] == 0
    ensures G32(m, p) == 0
  {
  }

  // the strings' place in a table of n symbols
  function StrPlace(n: nat): nat {
    KSYMHDRSZ + SYMSZ * n
  }

  // a header, and no hash entry yet
  ghost predicate Blank(m: seq<Byte>, n: nat, strsize: nat, nb: nat) {
    Inited(m, n, strsize, nb) && forall x | HashOffset(n, strsize) + 8 <= x < |m| :: m[x] == 0
  }

  // the block just before it is hashed
  ghost predicate Ready(m: seq<Byte>, t: seq<Entry>, str: seq<Byte>, nb: nat) {
    && Blank(m, |t| + 1, |str|, nb) && HoldsAll(m, t)
    && m[StrPlace(|t| + 1)..StrPlace(|t| + 1) + |str|] == str
  }

  lemma ReadyLaid(m: seq<Byte>, t: seq<Entry>, str: seq<Byte>, nb: nat)
    requires Ready(m, t, str, nb) && str[|str|-1] == 0 && forall e | e in t :: e.name < |str|
    ensures Laid(m) && NSym(m) == |t| + 1 && NBucket(m) == nb && StrOff(m) == StrPlace(|t| + 1)
    ensures forall i | 0 <= i < NBucket(m) + NSym(m) :: Link(m, i) == 0
    ensures forall j | 0 <= j < |t| :: NameOff(m, j + 1) == t[j].name && Value(m, j + 1) == t[j].value % WORD
  {
    var so := StrPlace(|t| + 1);
    assert m[so + |str| - 1] == m[so..so + |str|][|str| - 1];
    forall i | 0 <= i < NSym(m) ensures NameOff(m, i) < StrSize(m) {
      if i > 0 {
        assert Holds(m, i, t[i-1]) && t[i-1] in t;
      }
    }
    forall i | 0 <= i < NBucket(m) + NSym(m) ensures Link(m, i) == 0 {
      ZeroWord(m, HashOff(m) + 8 + 4 * i);
    }
  }

  lemma ReadyStrings(m: seq<Byte>, t: seq<Entry>, str: seq<Byte>, nb: nat)
    requires Ready(m, t, str, nb)
    ensures |str| >= 1 && |m| >= KSYMHDRSZ && StrPlace(|t| + 1) + |str| <= |m|
    ensures m[StrPlace(|t| + 1)..StrPlace(|t| + 1) + |str|] == str
  {
  }

  // its names are the file's
  lemma {:induction false} ReadyNames(m: seq<Byte>, t: seq<Entry>, str: seq<Byte>, nb: nat)
    requires Ready(m, t, str, nb) && str[|str|-1] == 0 && forall e | e in t :: e.name < |str|
    ensures Laid(m) && NSym(m) == |t| + 1
    ensures forall j | 0 <= j < |t| :: Name(m, j + 1) == CStr(str, t[j].name)
  {
    hide G32, Laid, Ready;
    ReadyLaid(m, t, str, nb);
    ReadyStrings(m, t, str, nb);
    forall j | 0 <= j < |t| ensures Name(m, j + 1) == CStr(str, t[j].name) {
      assert t[j] in t;
      CStrIn(m, StrPlace(|t| + 1), str, t[j].name);
    }
  }

  // strings and symbols go between the header and the hash
  lemma FilledIn(m1: seq<Byte>, m2: seq<Byte>, m3: seq<Byte>, t: seq<Entry>, str: seq<Byte>, nb: nat)
    requires Blank(m1, |t| + 1, |str|, nb)
    requires Only(m1, m2, StrPlace(|t| + 1), |str|) && m2[StrPlace(|t| + 1)..StrPlace(|t| + 1) + |str|] == str
    requires Only(m2, m3, KSYMHDRSZ + SYMSZ, SYMSZ * |t|) && HoldsAll(m3, t)
    ensures Ready(m3, t, str, nb)
  {
    hide G32, HoldsAll;
    var so, h := StrPlace(|t| + 1), HashOffset(|t| + 1, |str|);
    forall p | (0 <= p && p + 4 <= KSYMHDRSZ) || (h <= p && p + 4 <= |m1|) ensures G32(m3, p) == G32(m1, p) {
      FieldKept(m1, m2, so, |str|, p);
      FieldKept(m2, m3, KSYMHDRSZ + SYMSZ, SYMSZ * |t|, p);
    }
    assert forall x | so <= x < so + |str| :: m3[x] == m2[x];
  }

  lemma {:induction false} CStrIn(m: seq<Byte>, so: nat, str: seq<Byte>, o: nat)
    requires so + |str| <= |m| && m[so..so + |str|] == str && o < |str| && str[|str|-1] == 0
    ensures CStr(m, so + o) == CStr(str, o)
    decreases |str| - o
  {
    assert m[so + o] == m[so..so + |str|][o];
    if str[o] != 0 {
      CStrIn(m, so, str, o + 1);
    }
  }

  method FillTable(a: array<Byte>, es: seq<Entry>, str: seq<Byte>, n: nat, ghost nb: nat)
    requires n == |Marked(es)| + 1 && Blank(a[..], n, |str|, nb) && |str| < WORD
    requires forall x | KSYMHDRSZ <= x < HashOffset(n, |str|) :: a[x] == 0
    requires forall e | e in es :: e.name < |str|
    modifies a
    ensures Ready(a[..], Marked(es), str, nb) && Same(old(a[..]), a[..], 0, KSYMHDRSZ)
  {
    hide Holds, Ready, G32;
    ghost var m1 := a[..];
    PutStrings(a, StrPlace(n), str);
    ghost var m2 := a[..];
    ZeroWord(m2, KSYMHDRSZ);
    PutSyms(a, es);
    FilledIn(m1, m2, a[..], Marked(es), str, nb);
  }

  /** dlm_ld_table: a usable, hashed block whose symbols are the marked ones in order, word for word,
      under the names they have in the file. */
  method BuildTable(es: seq<Entry>, str: seq<Byte>, lo: nat, hi: nat, nb: nat) returns (a: array<Byte>)
    requires |str| >= 1 && str[|str|-1] == 0 && nb >= 1 && |str| < WORD
    requires forall e | e in es :: e.name < |str|
    requires BlkSize(|Marked(es)| + 1, |str|, nb) < MAXSPACE
    ensures fresh(a) && Usable(a[..]) && Hashed(a[..])
    ensures NSym(a[..]) == |Marked(es)| + 1 && NBucket(a[..]) == nb && HoldsAll(a[..], Marked(es))
    ensures forall j | 0 <= j < |Marked(es)| ::
      Name(a[..], j + 1) == CStr(str, Marked(es)[j].name) && Value(a[..], j + 1) == Marked(es)[j].value % WORD
    ensures G32(a[..], 28) == lo % WORD && G32(a[..], 32) == hi % WORD
  {
    hide G32, Ready, Hashed, Name, SameFront, NSym, NBucket, Link, Laid, Usable;
    var n := Counted(es);
    a := new Byte[BlkSize(n, |str|, nb)](_ => 0);
    BlkInit(a, n, |str|, nb, lo, hi);
    ghost var m0 := a[..];
    FillTable(a, es, str, n, nb);
    ghost var m := a[..];
    ReadyLaid(m, Marked(es), str, nb);
    ReadyNames(m, Marked(es), str, nb);
    BlkHash(a);
    RangeKept(m0, m, a[..]);
    NamesKept(m, a[..]);
    FrontKept(m, a[..]);
    SymsKept(m, a[..]);
    ReadyKept(m, a[..], Marked(es), str, nb);
  }

  // the range of the module's addresses stays in the header
  lemma RangeKept(m0: seq<Byte>, m: seq<Byte>, m': seq<Byte>)
    requires |m| == |m0| && Same(m0, m, 0, KSYMHDRSZ) && Laid(m) && SameFront(m, m')
    ensures |m'| >= KSYMHDRSZ && G32(m', 28) == G32(m0, 28) && G32(m', 32) == G32(m0, 32)
  {
    hide G32;
    WordSame(m0, m, KSYMHDRSZ, 28);
    WordSame(m0, m, KSYMHDRSZ, 32);
    WordSame(m, m', HashOff(m) + 8, 28);
    WordSame(m, m', HashOff(m) + 8, 32);
  }

  lemma ReadyKept(m: seq<Byte>, m': seq<Byte>, t: seq<Entry>, str: seq<Byte>, nb: nat)
    requires Ready(m, t, str, nb) && Laid(m) && SameFront(m, m')
    ensures HoldsAll(m', t)
  {
    hide G32, Holds;
    HoldsKept(m, m', HashOff(m), t);
  }

  // the null symbol and the marked ones
  method Counted(es: seq<Entry>) returns (n: nat)
    ensures n == |Marked(es)| + 1
  {
    n := 1;
    for i := 0 to |es|
      invariant n == |Marked(es[..i])| + 1
    {
      MarkedSnoc(es, i);
      if es[i].tab {
        n := n + 1;
      }
    }
    assert es[..|es|] == es;
  }

  // the symbols' values lie in front of the hash too
  lemma SymsKept(m: seq<Byte>, m': seq<Byte>)
    requires Laid(m) && SameFront(m, m')
    ensures Laid(m') && NSym(m') == NSym(m)
    ensures forall i | 0 <= i < NSym(m) :: Value(m', i) == Value(m, i)
  {
    hide G32;
    FrontKept(m, m');
    forall i | 0 <= i < NSym(m) ensures Value(m', i) == Value(m, i) {
      WordSame(m, m', HashOff(m) + 8, SymOff(m) + SYMSZ * i + 4);
    }
  }
}

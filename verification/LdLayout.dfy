/**
 Section layout of a module file: which section headers are accepted, and where
 the allocated sections go in the image.  Every sum is of an offset within the
 image limit, itself below 2^31, and an alignment or a size no larger, so no
 32-bit sum wraps.
 */
module LdLayout {
  import opened Basics
  import opened RingMath
  import SymBlock

  datatype LdErr = ENOMEM | ERELOC

  const SHT_PROGBITS := 1
  const SHT_SYMTAB := 2
  const SHT_STRTAB := 3
  const SHT_RELA := 4
  const SHT_NOBITS := 8
  const SHT_REL := 9
  const SHT_DLMMOD := 13
  const RELASZ := 12

  // a section header: the words the layout and the relocations read; start is its file offset
  datatype Sec = Sec(typ: nat, alloc: bool, start: nat, size: nat, link: nat, info: nat, align: nat, entsize: nat)

  predicate Pow2(n: nat) {
    n == 1 || (n > 1 && n % 2 == 0 && Pow2(n / 2))
  }

  function Exp2(k: nat): nat {
    if k == 0 then 1 else 2 * Exp2(k - 1)
  }

  lemma {:induction false} Pow2Is(n: nat)
    ensures Pow2(n) <==> exists k :: Exp2(k) == n
  {
    if n > 1 && n % 2 == 0 {
      Pow2Is(n / 2);
      if Pow2(n) {
        var k: nat :| Exp2(k) == n / 2;
        assert Exp2(k + 1) == n;
      }
    } else if n == 1 {
      assert Exp2(0) == n;
    }
    forall k: nat | Exp2(k) == n ensures Pow2(n) {
      if k > 0 {
        assert Exp2(k - 1) == n / 2 && n % 2 == 0;
        Exp2Positive(k - 1);
      }
    }
  }

  lemma {:induction false} Exp2Positive(k: nat)
    ensures Exp2(k) >= 1
  {
    if k > 0 {
      Exp2Positive(k - 1);
    }
  }

  // max(sh_addralign, 4)
  function Demand(s: Sec): (a: nat)
    ensures a >= 4
  {
    if s.align < 4 then 4 else s.align
  }

  // (off + al - 1) & ~(al - 1), for a power of two
  function RoundUp(off: nat, al: nat): (r: nat)
    requires al > 0
    ensures off <= r < off + al && r % al == 0
  {
    Rounded(off, al);
    (off + al - 1) / al * al
  }

  lemma Rounded(off: nat, al: nat)
    requires al > 0
    ensures var r := (off + al - 1) / al * al; off <= r < off + al && r % al == 0
  {
    var x := off + al - 1;
    assert x == x / al * al + x % al;
    ModIs(x / al * al, al, x / al, 0);
  }

  predicate PlacedType(t: nat) {
    t == SHT_PROGBITS || t == SHT_NOBITS || t == SHT_DLMMOD
  }

  // a relocation section names a symbol table and a target, and holds whole entries
  predicate RelaOk(s: Sec, shnum: nat) {
    s.link < shnum && s.info < shnum && s.entsize == RELASZ && s.size % RELASZ == 0
  }

  // what the loop over the headers asks of one of them
  predicate HeaderOk(s: Sec, shnum: nat, max: nat) {
    && s.typ != SHT_REL
    && (s.typ == SHT_RELA ==> RelaOk(s, shnum))
    && (s.alloc ==> PlacedType(s.typ) && Pow2(Demand(s)) && s.size <= max)
  }

  // the end of the image after sections 1 .. n-1
  function EndAt(secs: seq<Sec>, n: nat): nat
    requires n <= |secs|
  {
    if n <= 1 then 0
    else if secs[n-1].alloc then RoundUp(EndAt(secs, n - 1), Demand(secs[n-1])) + secs[n-1].size
    else EndAt(secs, n - 1)
  }

  function Offset(secs: seq<Sec>, i: nat): nat
    requires i < |secs|
  {
    RoundUp(EndAt(secs, i), Demand(secs[i]))
  }

  function SymTabs(secs: seq<Sec>, n: nat): nat
    requires n <= |secs|
  {
    if n <= 1 then 0 else SymTabs(secs, n - 1) + if secs[n-1].typ == SHT_SYMTAB then 1 else 0
  }

  // the symbol table has whole symbols, and names its strings
  predicate SymsOk(secs: seq<Sec>, i: nat, max: nat)
    requires i < |secs|
  {
    var s := secs[i];
    && s.entsize == SymBlock.SYMSZ && s.size % SymBlock.SYMSZ == 0 && SymBlock.SYMSZ <= s.size <= max
    && 0 < s.link < |secs| && secs[s.link].typ == SHT_STRTAB && 1 <= secs[s.link].size <= max
  }

  // every header in order, the image within its limit throughout, and one symbol table, which all the
  // relocations are against
  ghost predicate Accepted(secs: seq<Sec>, max: nat) {
    && (forall i | 1 <= i < |secs| :: HeaderOk(secs[i], |secs|, max))
    && (forall i | 1 <= i <= |secs| :: EndAt(secs, i) <= max)
    && SymTabs(secs, |secs|) == 1 && TablesOk(secs, max)
  }

  ghost predicate TablesOk(secs: seq<Sec>, max: nat) {
    && (forall i | 1 <= i < |secs| && secs[i].typ == SHT_SYMTAB :: SymsOk(secs, i, max))
    && (forall i, k | 1 <= i < |secs| && 1 <= k < |secs| && secs[i].typ == SHT_RELA && secs[k].typ == SHT_SYMTAB ::
          secs[i].link == k)
  }

  lemma {:induction false} OneSymTab(secs: seq<Sec>, n: nat, k: nat)
    requires 1 <= k < n <= |secs| && secs[k].typ == SHT_SYMTAB
    ensures SymTabs(secs, n) >= 1
    ensures SymTabs(secs, n) == 1 ==> forall i | 1 <= i < n && secs[i].typ == SHT_SYMTAB :: i == k
    decreases n
  {
    if k < n - 1 {
      OneSymTab(secs, n - 1, k);
    } else {
      NoSymTab(secs, n - 1);
    }
  }

  lemma {:induction false} NoSymTab(secs: seq<Sec>, n: nat)
    requires n <= |secs|
    ensures SymTabs(secs, n) == 0 ==> forall i | 1 <= i < n :: secs[i].typ != SHT_SYMTAB
  {
    if n > 1 {
      NoSymTab(secs, n - 1);
    }
  }

  lemma {:induction false} EndGrows(secs: seq<Sec>, i: nat, j: nat)
    requires i <= j <= |secs|
    ensures EndAt(secs, i) <= EndAt(secs, j)
    decreases j - i
  {
    if i < j {
      EndGrows(secs, i, j - 1);
    }
  }

  /** An accepted layout: allocated sections in header order, apart, aligned, inside the image. */
  lemma {:induction false} LaidOut(secs: seq<Sec>, max: nat, i: nat, j: nat)
    requires Accepted(secs, max)
    requires 1 <= i < j < |secs| && secs[i].alloc && secs[j].alloc
    ensures Offset(secs, i) + secs[i].size <= Offset(secs, j)
    ensures Offset(secs, j) + secs[j].size <= EndAt(secs, |secs|) <= max
    ensures Offset(secs, i) % Demand(secs[i]) == 0 && Demand(secs[i]) >= 4 && Pow2(Demand(secs[i]))
    ensures Offset(secs, j) % Demand(secs[j]) == 0
  {
    EndGrows(secs, i + 1, j);
    EndGrows(secs, j + 1, |secs|);
    assert HeaderOk(secs[i], |secs|, max);
  }

  // where the last section placed before n ends, as they lie
  function Ends(secs: seq<Sec>, secoff: seq<Option<nat>>, n: nat): nat
    requires n <= |secs| == |secoff|
  {
    if n <= 1 then 0
    else if secoff[n-1].Some? then secoff[n-1].value + secs[n-1].size
    else Ends(secs, secoff, n - 1)
  }

  /** Each allocated section, and no other, is placed at the first multiple of its alignment, or of 4, after the
      one before it, the first one at 0; the image ends with the last. */
  ghost predicate Snug(secs: seq<Sec>, secoff: seq<Option<nat>>, size: nat) {
    && |secoff| == |secs| && size == Ends(secs, secoff, |secs|)
    && forall i | 1 <= i < |secs| ::
         var al, end := if secs[i].align < 4 then 4 else secs[i].align, Ends(secs, secoff, i);
         && (secoff[i].Some? <==> secs[i].alloc)
         && (secoff[i].Some? ==> secoff[i].value % al == 0 && end <= secoff[i].value < end + al)
  }

  lemma {:induction false} LaidEnds(secs: seq<Sec>, secoff: seq<Option<nat>>, n: nat)
    requires n <= |secs| == |secoff|
    requires forall i | 1 <= i < |secs| :: secoff[i] == if secs[i].alloc then Some(Offset(secs, i)) else None
    ensures forall m | 0 <= m <= n :: Ends(secs, secoff, m) == EndAt(secs, m)
  {
    hide RoundUp;
    if n > 1 {
      LaidEnds(secs, secoff, n - 1);
    }
  }

  lemma {:induction false} LaidSnug(secs: seq<Sec>, secoff: seq<Option<nat>>)
    requires |secs| >= 1 && |secoff| == |secs|
    requires forall i | 1 <= i < |secs| :: secoff[i] == if secs[i].alloc then Some(Offset(secs, i)) else None
    ensures Snug(secs, secoff, EndAt(secs, |secs|))
  {
    hide RoundUp;
    LaidEnds(secs, secoff, |secs|);
  }

  /** The section loop of dlm_ld_hdr and the tests after it; the ELF header and the count of type-13
      sections are read before. */
  method LayOut(secs: seq<Sec>, max: nat) returns (err: Option<LdErr>, secoff: seq<Option<nat>>, end: nat, symsec: nat)
    requires |secs| >= 2
    ensures err.None? <==> Accepted(secs, max)
    ensures err.None? ==> |secoff| == |secs| && end == EndAt(secs, |secs|)
    ensures err.None? ==> forall i | 0 <= i < |secs| ::
      secoff[i] == if i > 0 && secs[i].alloc then Some(Offset(secs, i)) else None
    ensures err.None? ==> 1 <= symsec < |secs| && secs[symsec].typ == SHT_SYMTAB
    ensures err.None? ==> Snug(secs, secoff, end)
  {
    hide TablesOk, RoundUp, Pow2, RelaOk, Snug;
    secoff, end, symsec := [None], 0, 0;
    var nsymtab := 0;
    var i := 1;
    while i < |secs|
      invariant 1 <= i <= |secs| && |secoff| == i
      invariant end == EndAt(secs, i) && nsymtab == SymTabs(secs, i)
      invariant forall k | 1 <= k < i :: HeaderOk(secs[k], |secs|, max)
      invariant forall k | 1 <= k <= i :: EndAt(secs, k) <= max
      invariant forall k | 0 <= k < i :: secoff[k] == if k > 0 && secs[k].alloc then Some(Offset(secs, k)) else None
      invariant nsymtab > 0 ==> 1 <= symsec < i && secs[symsec].typ == SHT_SYMTAB
    {
      var s := secs[i];
      if s.typ == SHT_REL {
        assert !HeaderOk(s, |secs|, max);
        return Some(ERELOC), secoff, end, symsec;
      }
      if s.typ == SHT_SYMTAB {
        nsymtab := nsymtab + 1;
        symsec := i;
      }
      if s.typ == SHT_RELA && !RelaOk(s, |secs|) {
        assert !HeaderOk(s, |secs|, max);
        return Some(ERELOC), secoff, end, symsec;
      }
      if !s.alloc {
        secoff := secoff + [None];
        i := i + 1;
        continue;
      }
      if !PlacedType(s.typ) || !Pow2(Demand(s)) {
        assert !HeaderOk(s, |secs|, max);
        return Some(ERELOC), secoff, end, symsec;
      }
      if s.size > max {
        assert !HeaderOk(s, |secs|, max);
        return Some(ENOMEM), secoff, end, symsec;
      }
      end := RoundUp(end, Demand(s));
      secoff := secoff + [Some(end)];
      end := end + s.size;
      if end > max {
        assert EndAt(secs, i + 1) > max;
        return Some(ENOMEM), secoff, end, symsec;
      }
      i := i + 1;
    }
    if nsymtab != 1 {
      return Some(ERELOC), secoff, end, symsec;
    }
    LaidSnug(secs, secoff);
    var ok := Tables(secs, max, symsec);
    err := if ok then None else Some(ERELOC);
  }

  // the tests of the one symbol table, and of the relocations' links to it
  method Tables(secs: seq<Sec>, max: nat, symsec: nat) returns (ok: bool)
    requires 1 <= symsec < |secs| && secs[symsec].typ == SHT_SYMTAB && SymTabs(secs, |secs|) == 1
    ensures ok <==> TablesOk(secs, max)
  {
    OneSymTab(secs, |secs|, symsec);
    if !SymsOk(secs, symsec, max) {
      return false;
    }
    var i := 1;
    while i < |secs|
      invariant 1 <= i <= |secs| && forall k | 1 <= k < i && secs[k].typ == SHT_RELA :: secs[k].link == symsec
    {
      if secs[i].typ == SHT_RELA && secs[i].link != symsec {
        return false;
      }
      i := i + 1;
    }
    return true;
  }
}

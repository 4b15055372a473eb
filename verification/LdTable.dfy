/**
 The table a module leaves behind for the modules that will depend on it: what
 a lookup in it finds, in terms of the symbols of the module's file.
 */
module LdTable {
  import opened Basics
  import opened LdLayout
  import opened LdSyms
  import opened SymBlock
  import opened Bytes

  // the entry of a resolved symbol: its name in the strings, and its value in the running image
  ghost predicate EntryOf(e: Entry, s: Sym, l: Lsym, base: nat, str: seq<Byte>) {
    && e.name < |str| && CStr(str, e.name) == s.name && e.tab == l.tab
    && e.value == if l.kind.Rel? then base + l.val else l.val
  }

  // the entries are those of the file's symbols, each as LoadSyms leaves it
  ghost predicate Resolved(es: seq<Entry>, str: seq<Byte>, base: nat, syms: seq<Sym>, ls: seq<Lsym>,
                           deps: seq<Table>, kernel: Option<Table>, start: nat) {
    && |es| == |syms| == |ls| >= 1 && !es[0].tab
    && forall i | 1 <= i < |es| ::
         EntryOf(es[i], syms[i], ls[i], base, str) && Final(ls[i], syms, deps, kernel, start, i)
  }

  // the block holds the marked entries, in order, as symbols 1 and up
  ghost predicate Listed(m: seq<Byte>, t: seq<Entry>, str: seq<Byte>) {
    && Usable(m) && NSym(m) == |t| + 1 && SymOff(m) + SYMSZ * NSym(m) <= |m|
    && forall j | 0 <= j < |t| :: ListedAt(m, t, str, j)
  }

  ghost predicate ListedAt(m: seq<Byte>, t: seq<Entry>, str: seq<Byte>, j: nat)
    requires Laid(m) && NSym(m) == |t| + 1 && SymOff(m) + SYMSZ * NSym(m) <= |m| && j < |t|
  {
    t[j].name < |str| && SymBlock.Name(m, j + 1) == CStr(str, t[j].name) && Value(m, j + 1) == t[j].value % WORD
  }

  // ----- what is exported

  // symbol i is one the module exports under the name: its definition in force, or a common it allocates
  ghost predicate Exporting(syms: seq<Sym>, deps: seq<Table>, kernel: Option<Table>, name: Name, i: nat) {
    && 1 <= i < |syms| && syms[i].name == name
    && (OwnCommon(syms[i], deps, kernel) || Own(syms, |syms|, name) == i)
  }

  // where it is in the running image
  ghost function Address(syms: seq<Sym>, deps: seq<Table>, kernel: Option<Table>, start: nat, base: nat, i: nat): nat
    requires i < |syms|
  {
    match syms[i].place
    case Common => base + RoundUp(CommonEnd(syms, deps, kernel, start, i), Alignment(syms[i]))
    case Section(off) => base + off + syms[i].value
    case _ => syms[i].value
  }

  ghost predicate LastExporting(syms: seq<Sym>, deps: seq<Table>, kernel: Option<Table>, name: Name, i: nat) {
    && Exporting(syms, deps, kernel, name, i)
    && forall k: nat | Exporting(syms, deps, kernel, name, k) :: k <= i
  }

  // what the table says of a name: it is there when a symbol exports it, at the address of the last that does
  ghost predicate Exported(m: seq<Byte>, base: nat, syms: seq<Sym>, deps: seq<Table>, kernel: Option<Table>,
                           start: nat, name: Name) {
    && Usable(m) && (name in TableOf(m) <==> exists i :: Exporting(syms, deps, kernel, name, i))
    && forall i: nat | LastExporting(syms, deps, kernel, name, i) ::
         AtAddress(m, base, syms, deps, kernel, start, name, i)
  }

  ghost predicate AtAddress(m: seq<Byte>, base: nat, syms: seq<Sym>, deps: seq<Table>, kernel: Option<Table>,
                            start: nat, name: Name, i: nat)
    requires Usable(m)
  {
    i < |syms| && name in TableOf(m) && TableOf(m)[name] == Address(syms, deps, kernel, start, base, i) % WORD
  }

  // the marked symbols are exactly those exported, each at its address
  lemma MarkIsExport(syms: seq<Sym>, deps: seq<Table>, kernel: Option<Table>, start: nat, l: Lsym, i: nat, base: nat)
    requires 1 <= i < |syms| && Final(l, syms, deps, kernel, start, i)
    ensures l.tab <==> Exporting(syms, deps, kernel, syms[i].name, i)
    ensures l.tab ==> (if l.kind.Rel? then base + l.val else l.val) == Address(syms, deps, kernel, start, base, i)
  {
  }

  // ----- the order of the marked entries

  // the place of entry i among the marked ones
  ghost function Rank(es: seq<Entry>, i: nat): nat
    requires i <= |es|
  {
    |Marked(es[..i])|
  }

  lemma {:induction false} MarkedAt(es: seq<Entry>, i: nat)
    requires i < |es| && es[i].tab
    ensures Rank(es, i) < |Marked(es)| && Marked(es)[Rank(es, i)] == es[i]
    decreases |es|
  {
    var front := es[..|es|-1];
    if i < |front| {
      MarkedAt(front, i);
      assert front[..i] == es[..i];
    }
  }

  lemma {:induction false} MarkedFrom(es: seq<Entry>, j: nat) returns (i: nat)
    requires j < |Marked(es)|
    ensures i < |es| && es[i].tab && Rank(es, i) == j && Marked(es)[j] == es[i]
    decreases |es|
  {
    var front := es[..|es|-1];
    if j < |Marked(front)| {
      i := MarkedFrom(front, j);
      assert front[..i] == es[..i];
    } else {
      i := |es| - 1;
    }
  }

  lemma {:induction false} RankGrows(es: seq<Entry>, i: nat, k: nat)
    requires i < k <= |es| && es[i].tab
    ensures Rank(es, i) < Rank(es, k)
    decreases k
  {
    assert es[..k][..k - 1] == es[..k - 1];
    if i < k - 1 {
      RankGrows(es, i, k - 1);
    }
  }

  // ----- the table

  // symbol i of the file is marked and has the name
  ghost predicate Bears(es: seq<Entry>, str: seq<Byte>, name: Name, i: nat) {
    1 <= i < |es| && es[i].tab && es[i].name < |str| && CStr(str, es[i].name) == name
  }

  lemma BearsExports(es: seq<Entry>, str: seq<Byte>, base: nat, syms: seq<Sym>, ls: seq<Lsym>,
                     deps: seq<Table>, kernel: Option<Table>, start: nat, name: Name, i: nat)
    requires Resolved(es, str, base, syms, ls, deps, kernel, start)
    ensures |es| == |syms| && (Bears(es, str, name, i) <==> Exporting(syms, deps, kernel, name, i))
    ensures Bears(es, str, name, i) ==> i < |es|
    ensures Bears(es, str, name, i) ==> es[i].value == Address(syms, deps, kernel, start, base, i)
  {
    hide Final, Own, OwnCommon, CStr, Address, Exporting;
    if 1 <= i < |syms| {
      assert EntryOf(es[i], syms[i], ls[i], base, str);
      MarkIsExport(syms, deps, kernel, start, ls[i], i, base);
      ExportName(syms, deps, kernel, name, i);
    } else {
      ExportName(syms, deps, kernel, name, i);
    }
  }

  lemma ExportName(syms: seq<Sym>, deps: seq<Table>, kernel: Option<Table>, name: Name, i: nat)
    ensures Exporting(syms, deps, kernel, name, i) ==>
      1 <= i < |syms| && syms[i].name == name && Exporting(syms, deps, kernel, syms[i].name, i)
    ensures 1 <= i < |syms| && syms[i].name == name && Exporting(syms, deps, kernel, syms[i].name, i) ==>
      Exporting(syms, deps, kernel, name, i)
  {
  }

  lemma ListedFacts(m: seq<Byte>, t: seq<Entry>, str: seq<Byte>)
    requires Listed(m, t, str)
    ensures |m| >= KSYMHDRSZ && Usable(m) && Laid(m) && NSym(m) == |t| + 1 && SymOff(m) + SYMSZ * NSym(m) <= |m|
    ensures forall j | 0 <= j < |t| :: ListedAt(m, t, str, j)
  {
  }

  // a symbol that bears the name is in the table, no later than the one a lookup finds
  lemma {:induction false} BearerListed(m: seq<Byte>, es: seq<Entry>, str: seq<Byte>, name: Name, i: nat)
    requires Listed(m, Marked(es), str) && Bears(es, str, name, i)
    ensures |m| >= KSYMHDRSZ && Laid(m)
    ensures Rank(es, i) < LastNamed(m, NSym(m), name) < NSym(m)
  {
    hide Usable, Laid, SymBlock.Name, LastNamed, Marked, Listed, CStr, Value;
    ListedFacts(m, Marked(es), str);
    MarkedAt(es, i);
    assert ListedAt(m, Marked(es), str, Rank(es, i));
    LastIsLater(m, Rank(es, i) + 1);
  }

  // what a lookup finds is a symbol that bears the name
  lemma FoundBears(m: seq<Byte>, es: seq<Entry>, str: seq<Byte>, name: Name) returns (i: nat)
    requires Listed(m, Marked(es), str) && |es| >= 1 && !es[0].tab
    requires |m| >= KSYMHDRSZ && Laid(m) && LastNamed(m, NSym(m), name) != 0
    ensures Bears(es, str, name, i) && Rank(es, i) == LastNamed(m, NSym(m), name) - 1
    ensures NSym(m) == |Marked(es)| + 1 && SymOff(m) + SYMSZ * NSym(m) <= |m|
    ensures LastNamed(m, NSym(m), name) < NSym(m) && Value(m, LastNamed(m, NSym(m), name)) == es[i].value % WORD
  {
    hide Usable, Laid, SymBlock.Name, Marked, Listed, CStr, Value;
    ListedFacts(m, Marked(es), str);
    var r := LastNamed(m, NSym(m), name);
    assert ListedAt(m, Marked(es), str, r - 1);
    i := MarkedFrom(es, r - 1);
  }

  /** What a module exports: a name is in its table exactly when the module defines it or allocates it as a
      common, at the address of the last symbol that does. */
  lemma {:induction false} Exports(m: seq<Byte>, es: seq<Entry>, str: seq<Byte>, base: nat, syms: seq<Sym>,
                                   ls: seq<Lsym>, deps: seq<Table>, kernel: Option<Table>, start: nat, name: Name)
    requires Listed(m, Marked(es), str) && Resolved(es, str, base, syms, ls, deps, kernel, start)
    ensures Exported(m, base, syms, deps, kernel, start, name)
  {
    hide Usable, Laid, SymBlock.Name, LastNamed, Marked, Listed, CStr, Value, Resolved, Exporting, Bears;
    hide Address, TableOf, Rank;
    ListedFacts(m, Marked(es), str);
    TableAt(m, name);
    NullUnmarked(es, str, base, syms, ls, deps, kernel, start);
    if LastNamed(m, NSym(m), name) != 0 {
      var i := FoundBears(m, es, str, name);
      BearsExports(es, str, base, syms, ls, deps, kernel, start, name, i);
      forall k: nat | LastExporting(syms, deps, kernel, name, k)
        ensures AtAddress(m, base, syms, deps, kernel, start, name, k)
      {
        BearsExports(es, str, base, syms, ls, deps, kernel, start, name, k);
        BearerListed(m, es, str, name, k);
        LastBearer(es, str, name, i, k);
      }
    } else {
      forall k: nat ensures !Exporting(syms, deps, kernel, name, k) {
        BearsExports(es, str, base, syms, ls, deps, kernel, start, name, k);
        if Bears(es, str, name, k) {
          BearerListed(m, es, str, name, k);
        }
      }
    }
  }

  // of two that bear the name, a lower rank comes first
  lemma LastBearer(es: seq<Entry>, str: seq<Byte>, name: Name, i: nat, k: nat)
    requires Bears(es, str, name, i) && Bears(es, str, name, k) && i <= k && Rank(es, k) <= Rank(es, i)
    ensures i == k
  {
    hide Rank, CStr;
    if i < k {
      RankGrows(es, i, k);
    }
  }

  lemma NullUnmarked(es: seq<Entry>, str: seq<Byte>, base: nat, syms: seq<Sym>, ls: seq<Lsym>,
                     deps: seq<Table>, kernel: Option<Table>, start: nat)
    requires Resolved(es, str, base, syms, ls, deps, kernel, start)
    ensures |es| >= 1 && !es[0].tab
  {
  }

  /** dlm_ld_table after dlm_ld_syms: a usable, hashed block that exports every name as it should. */
  method ModuleTable(es: seq<Entry>, str: seq<Byte>, base: nat, imgsz: nat, nb: nat, ghost syms: seq<Sym>,
                     ghost ls: seq<Lsym>, ghost deps: seq<Table>, ghost kernel: Option<Table>, ghost start: nat)
    returns (a: array<Byte>)
    requires |str| >= 1 && str[|str|-1] == 0 && nb >= 1 && |str| < WORD && forall e | e in es :: e.name < |str|
    requires BlkSize(|Marked(es)| + 1, |str|, nb) < MAXSPACE
    requires Resolved(es, str, base, syms, ls, deps, kernel, start)
    ensures fresh(a) && Usable(a[..]) && Hashed(a[..])
    ensures forall name: Name :: Exported(a[..], base, syms, deps, kernel, start, name)
    ensures a.Length >= KSYMHDRSZ && G32(a[..], 28) == base % WORD && G32(a[..], 32) == (base + imgsz) % WORD
  {
    hide G32, Usable, Hashed, Resolved, HoldsAll, Exported, Marked, SymBlock.Name, CStr;
    a := BuildTable(es, str, base, base + imgsz, nb);
    TableFacts(a[..]);
    BuiltListed(a[..], Marked(es), es, str);
    forall name: Name ensures Exported(a[..], base, syms, deps, kernel, start, name) {
      Exports(a[..], es, str, base, syms, ls, deps, kernel, start, name);
    }
  }

  lemma {:induction false} BuiltListed(m: seq<Byte>, t: seq<Entry>, es: seq<Entry>, str: seq<Byte>)
    requires Usable(m) && NSym(m) == |t| + 1 && (forall e | e in t :: e in es) && forall e | e in es :: e.name < |str|
    requires forall j | 0 <= j < |t| :: t[j] in es ==>
      SymBlock.Name(m, j + 1) == CStr(str, t[j].name) && Value(m, j + 1) == t[j].value % WORD
    ensures Listed(m, t, str)
  {
    hide SymBlock.Name, CStr;
    TableFacts(m);
    forall j | 0 <= j < |t| ensures ListedAt(m, t, str, j) {
      assert t[j] in es;
    }
  }
}

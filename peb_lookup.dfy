/**
 * GetModuleHandlePeb and GetProcAddressPeb of Utils/InlineCode.h: name-based
 * lookup of a loaded module and of one of its exports, over an abstract view
 * of the process instead of the PEB and the mapped image headers.
 */
module PebLookup {
  import opened Wrappers
  import opened WideString

  /** A 32-bit address; 0 is the null pointer. */
  type Address = a: int | 0 <= a < 0x1_0000_0000

  type U16 = x: int | 0 <= x < 0x1_0000
  type U32 = x: int | 0 <= x < 0x1_0000_0000

  const NULL: Address := 0

  /** Capacity of the lcurName buffer each export name is widened into. */
  const NameBufferSize := 512

  /** One entry of the in-load-order list: its BaseAddress and BaseDllName. */
  datatype LdrModule = LdrModule(base: Address, name: seq<WChar>)

  /**
   * An image's export directory: names[i] is the string the i-th Export Name
   * Pointer designates, ordinals[i] the matching Export Ordinal Table entry,
   * functions the Export Address Table (RVAs). |names| is NumberOfNames.
   */
  datatype ExportDirectory = ExportDirectory(names: seq<seq<AChar>>, ordinals: seq<U16>, functions: seq<U32>)

  /**
   * What the lookups read from the process: the PEB's ImageBaseAddress, the
   * cycle of the in-load-order list that GetModuleHandlePeb's do-while walks,
   * and the export directory of the image mapped at each base address.
   * ring[0] is ldr->InLoadOrder.Flink, the first module; the loaded modules
   * follow in load order, and the last entry stands for the list head
   * &ldr->InLoadOrder itself, which the walk also reads as a record (its
   * BaseAddress field overlays TPebLdrData's EntryInProgress) and whose Flink
   * leads back to ring[0].
   */
  datatype Process = Process(imageBase: Address, ring: seq<LdrModule>, images: map<Address, ExportDirectory>)

  /** The successor (Flink) of ring entry i in a cycle of n entries. */
  function Flink(i: nat, n: nat): (j: nat)
    requires i < n
    ensures j < n
    ensures j == 0 <==> i == n - 1
  {
    if i + 1 < n then i + 1 else 0
  }

  /** Every export name is a string that fits lcurName, every ordinal indexes the address table. */
  predicate ValidExports(d: ExportDirectory) {
    |d.ordinals| == |d.names| &&
    forall i :: 0 <= i < |d.names| ==>
      IsCStr(d.names[i]) && Len(d.names[i]) < NameBufferSize && d.ordinals[i] < |d.functions|
  }

  /**
   * The list is a non-empty cycle, and every entry with a non-null base has a
   * NUL-terminated BaseDllName buffer (the head's pseudo-record included).
   */
  predicate ValidLoader(p: Process) {
    |p.ring| > 0 &&
    forall k :: 0 <= k < |p.ring| && p.ring[k].base != NULL ==> IsCStr(p.ring[k].name)
  }

  /**
   * The record `m` is the module called `name`: it has a non-null base and
   * `!StrICompW(remoteModule, moduleName)` holds, i.e. its name equals `name`
   * ignoring ASCII case.
   */
  predicate ModuleMatches(m: LdrModule, name: seq<WChar>): (b: bool)
    requires IsCStr(name)
    ensures b <==> m.base != NULL && IsCStr(m.name) && ICompare(m.name, name) == 0
  {
    if m.base != NULL && IsCStr(m.name) then
      ICompareZeroIff(m.name, name);
      EqualsIgnoreCase(m.name, name)
    else false
  }

  /** The first index from k on whose record matches `name`, or |ring| if none does. */
  function FindModule(ring: seq<LdrModule>, name: seq<WChar>, k: nat): (r: nat)
    requires IsCStr(name) && k <= |ring|
    ensures k <= r <= |ring|
    ensures r < |ring| ==> ModuleMatches(ring[r], name)
    ensures forall j :: k <= j < r ==> !ModuleMatches(ring[j], name)
    decreases |ring| - k
  {
    if k == |ring| then k
    else if ModuleMatches(ring[k], name) then k
    else FindModule(ring, name, k + 1)
  }

  /** What GetModuleHandlePeb returns. */
  function ModuleHandle(p: Process, moduleName: Option<seq<WChar>>): (r: Address)
    requires moduleName.Some? ==> IsCStr(moduleName.value)
    ensures IsNullOrEmpty(moduleName) ==> r == p.imageBase
    ensures !IsNullOrEmpty(moduleName) ==>
      (r == NULL <==> forall j :: 0 <= j < |p.ring| ==> !ModuleMatches(p.ring[j], moduleName.value))
    ensures !IsNullOrEmpty(moduleName) && r != NULL ==>
      exists k :: 0 <= k < |p.ring| && r == p.ring[k].base && ModuleMatches(p.ring[k], moduleName.value) &&
        forall j :: 0 <= j < k ==> !ModuleMatches(p.ring[j], moduleName.value)
  {
    if IsNullOrEmpty(moduleName) then p.imageBase
    else
      var k := FindModule(p.ring, moduleName.value, 0);
      if k < |p.ring| then p.ring[k].base else NULL
  }

  /**
   * GetModuleHandlePeb: the image base for a null or empty name, otherwise
   * the base of the first loaded record in load order whose name matches
   * ignoring case, or null after one full cycle of the list.
   */
  method GetModuleHandlePeb(p: Process, moduleName: Option<seq<WChar>>) returns (r: Address)
    requires ValidLoader(p)
    requires moduleName.Some? ==> IsCStr(moduleName.value)
    ensures r == ModuleHandle(p, moduleName)
  {
    if IsNullOrEmpty(moduleName) {
      return p.imageBase;
    }
    var name := moduleName.value;
    var list := 0;  // ldr->InLoadOrder.Flink
    var flist := list;
    while true
      invariant list < |p.ring|
      invariant FindModule(p.ring, name, list) == FindModule(p.ring, name, 0)
      decreases |p.ring| - list
    {
      var base := p.ring[list].base;
      if base != NULL {
        var remoteModule := p.ring[list].name;
        var c := StrICompW(remoteModule, name);
        if c == 0 {
          return base;
        }
      }
      list := Flink(list, |p.ring|);
      if list == flist {
        break;
      }
    }
    return NULL;
  }

  /** The i-th export name, widened as AnsiToWide does, equals funcName ignoring case. */
  predicate ExportMatches(d: ExportDirectory, i: nat, funcName: seq<WChar>)
    requires ValidExports(d) && i < |d.names| && IsCStr(funcName)
  {
    FoldAll(WidenAll(Content(d.names[i]))) == FoldAll(Content(funcName))
  }

  /**
   * The match is the loop's test `!StrICompW(lcurName, funcName)`: the i-th
   * name widened and terminated compares equal to funcName.
   */
  lemma ExportMatchesCompare(d: ExportDirectory, i: nat, funcName: seq<WChar>)
    requires ValidExports(d) && i < |d.names| && IsCStr(funcName)
    ensures var wide := WidenAll(Content(d.names[i])) + [NUL];
      IsCStr(wide) && (ExportMatches(d, i, funcName) <==> ICompare(wide, funcName) == 0)
  {
    var wide := WidenAll(Content(d.names[i])) + [NUL];
    WidenedContent(d.names[i]);
    ICompareZeroIff(wide, funcName);
  }

  /** The first name index from k on that matches funcName, or |names| if none does. */
  function FindExport(d: ExportDirectory, funcName: seq<WChar>, k: nat): (r: nat)
    requires ValidExports(d) && IsCStr(funcName) && k <= |d.names|
    ensures k <= r <= |d.names|
    ensures r < |d.names| ==> ExportMatches(d, r, funcName)
    ensures forall j :: k <= j < r ==> !ExportMatches(d, j, funcName)
    decreases |d.names| - k
  {
    if k == |d.names| then k
    else if ExportMatches(d, k, funcName) then k
    else FindExport(d, funcName, k + 1)
  }

  /** (int)base + offset on a 32-bit target, cast back to a pointer. */
  function AddressAdd(base: Address, offset: U32): (r: Address)
    ensures base + offset < 0x1_0000_0000 ==> r == base + offset
    ensures base + offset >= 0x1_0000_0000 ==> r == base + offset - 0x1_0000_0000
  {
    (base + offset) % 0x1_0000_0000
  }

  /**
   * The module moduleName resolves to, if any, is a mapped image whose export
   * directory is well formed: the one directory GetProcAddressPeb reads.
   */
  predicate HandleMapped(p: Process, moduleName: Option<seq<WChar>>)
    requires moduleName.Some? ==> IsCStr(moduleName.value)
  {
    var base := ModuleHandle(p, moduleName);
    base != NULL ==> base in p.images && ValidExports(p.images[base])
  }

  /**
   * What GetProcAddressPeb returns: null when the module is not found or no
   * export name matches; otherwise base plus the address-table entry that
   * the ordinal at the smallest matching name index selects.
   */
  function ProcAddress(p: Process, moduleName: Option<seq<WChar>>, funcName: seq<WChar>): (r: Address)
    requires moduleName.Some? ==> IsCStr(moduleName.value)
    requires IsCStr(funcName)
    requires HandleMapped(p, moduleName)
    ensures var base := ModuleHandle(p, moduleName);
      base == NULL ==> r == NULL
    ensures var base := ModuleHandle(p, moduleName);
      base != NULL ==>
        ((forall j :: 0 <= j < |p.images[base].names| ==> !ExportMatches(p.images[base], j, funcName)) ==> r == NULL) &&
        (forall i: nat :: IsFirstExport(p.images[base], funcName, i) ==>
          var d := p.images[base];
          r == AddressAdd(base, d.functions[d.ordinals[i]]))
  {
    var base := ModuleHandle(p, moduleName);
    if base == NULL then NULL
    else
      var d := p.images[base];
      var i := FindExport(d, funcName, 0);
      FirstExportFound(d, funcName);
      if i < |d.names| then AddressAdd(base, d.functions[d.ordinals[i]]) else NULL
  }

  /** The export search from index 0 finds the first matching name, if there is one. */
  lemma FirstExportFound(d: ExportDirectory, funcName: seq<WChar>)
    requires ValidExports(d) && IsCStr(funcName)
    ensures forall i: nat :: IsFirstExport(d, funcName, i) ==> i == FindExport(d, funcName, 0)
  {
    var k := FindExport(d, funcName, 0);
    forall i: nat | IsFirstExport(d, funcName, i)
      ensures i == k
    {
    }
  }

  /** i is the smallest index of the name table whose name matches funcName. */
  predicate IsFirstExport(d: ExportDirectory, funcName: seq<WChar>, i: nat)
    requires ValidExports(d) && IsCStr(funcName)
  {
    i < |d.names| && ExportMatches(d, i, funcName) &&
    forall j :: 0 <= j < i ==> !ExportMatches(d, j, funcName)
  }

  /**
   * GetProcAddressPeb: resolves the module, then scans the export names in
   * order, widening each into a 512-unit buffer and comparing it ignoring
   * case with funcName; the first match i yields base + functions[ordinals[i]].
   */
  method GetProcAddressPeb(p: Process, moduleName: Option<seq<WChar>>, funcName: seq<WChar>) returns (r: Address)
    requires ValidLoader(p)
    requires moduleName.Some? ==> IsCStr(moduleName.value)
    requires IsCStr(funcName)
    requires HandleMapped(p, moduleName)
    ensures r == ProcAddress(p, moduleName, funcName)
  {
    var base := GetModuleHandlePeb(p, moduleName);
    if base == NULL {
      return NULL;
    }
    var dir := p.images[base];
    // i indexes the name table and the ordinal table together
    for i := 0 to |dir.names|
      invariant FindExport(dir, funcName, i) == FindExport(dir, funcName, 0)
    {
      var curName := dir.names[i];
      var lcurName := new WChar[NameBufferSize];
      AnsiToWide(lcurName, curName);
      var c := StrICompW(lcurName[..], funcName);
      assert c == 0 <==> ExportMatches(dir, i, funcName);
      if c == 0 {
        var funcNum := dir.ordinals[i];
        var offset := dir.functions[funcNum];
        return AddressAdd(base, offset);
      }
    }
    return NULL;
  }

  /**
   * A module name and an export name that differ only in the case of ASCII
   * letters resolve to the same address.
   */
  lemma {:induction false} ProcAddressIgnoresCase(p: Process, m1: seq<WChar>, m2: seq<WChar>, f1: seq<WChar>, f2: seq<WChar>)
    requires IsCStr(m1) && IsCStr(m2) && IsCStr(f1) && IsCStr(f2)
    requires EqualsIgnoreCase(m1, m2) && EqualsIgnoreCase(f1, f2)
    requires HandleMapped(p, Some(m1))
    ensures HandleMapped(p, Some(m2))
    ensures ProcAddress(p, Some(m1), f1) == ProcAddress(p, Some(m2), f2)
  {
    ModuleHandleIgnoresCase(p, m1, m2);
    var base := ModuleHandle(p, Some(m1));
    if base != NULL {
      FindExportIgnoresCase(p.images[base], f1, f2, 0);
    }
  }

  /** The module handle of a name depends on the name only up to case. */
  lemma ModuleHandleIgnoresCase(p: Process, m1: seq<WChar>, m2: seq<WChar>)
    requires IsCStr(m1) && IsCStr(m2) && EqualsIgnoreCase(m1, m2)
    ensures ModuleHandle(p, Some(m1)) == ModuleHandle(p, Some(m2))
  {
    FindModuleIgnoresCase(p.ring, m1, m2, 0);
  }

  lemma {:induction false} FindModuleIgnoresCase(ring: seq<LdrModule>, m1: seq<WChar>, m2: seq<WChar>, k: nat)
    requires IsCStr(m1) && IsCStr(m2) && EqualsIgnoreCase(m1, m2) && k <= |ring|
    ensures FindModule(ring, m1, k) == FindModule(ring, m2, k)
    decreases |ring| - k
  {
    if k < |ring| {
      FindModuleIgnoresCase(ring, m1, m2, k + 1);
    }
  }

  lemma {:induction false} FindExportIgnoresCase(d: ExportDirectory, f1: seq<WChar>, f2: seq<WChar>, k: nat)
    requires ValidExports(d) && IsCStr(f1) && IsCStr(f2) && EqualsIgnoreCase(f1, f2) && k <= |d.names|
    ensures FindExport(d, f1, k) == FindExport(d, f2, k)
    decreases |d.names| - k
  {
    if k < |d.names| {
      FindExportIgnoresCase(d, f1, f2, k + 1);
    }
  }
}

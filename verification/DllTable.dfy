/** The reference-counted table of loaded libraries, and the ledger of what it owes the loader. */
module DllTable {
  /** A module handle or a function address; 0 is NULL. */
  type Handle = nat

  datatype LoadFlag = GetModuleHandle | LoadSystem | LoadCurrent | LoadSideBySide

  datatype FuncFlag = AcceptNotExist | ErrorNotExist

  datatype Status = NoError | FileNotFound | ProcNotFound

  datatype Entry = Entry(fname: string, needFree: bool, handle: Handle, refCount: int)

  /** A function to look up, and the place in memory that receives its address. */
  datatype ApiInfo = ApiInfo(name: string, func: nat)

  /** What the system answers while one library is looked for: the handle if it is in memory
      already, and the handle if it has to be loaded. */
  datatype Answers = Answers(inMemory: Handle, loaded: Handle)

  // ----- The table as a value

  predicate Unique(list: seq<Entry>) {
    forall i, j :: 0 <= i < j < |list| ==> list[i].fname != list[j].fname
  }

  predicate Counted(list: seq<Entry>) {
    forall i :: 0 <= i < |list| ==> list[i].refCount >= 1 && list[i].handle != 0
  }

  predicate Has(list: seq<Entry>, fname: string) {
    exists i :: 0 <= i < |list| && list[i].fname == fname
  }

  function Place(list: seq<Entry>, fname: string): (k: nat)
    ensures k <= |list| && (k < |list| <==> Has(list, fname)) && (k < |list| ==> list[k].fname == fname)
  {
    if list == [] then 0
    else if list[0].fname == fname then assert Has(list, fname); 0
    else
      var k := Place(list[1..], fname);
      assert k < |list[1..]| ==> list[k + 1].fname == fname;
      assert forall i :: 0 < i < |list| ==> list[i] == list[1..][i - 1];
      k + 1
  }

  /** The references held by callers, name by name. */
  function Held(list: seq<Entry>): multiset<string> {
    if list == [] then multiset{} else HeldBy(list[0]) + Held(list[1..])
  }

  function HeldBy(e: Entry): multiset<string> {
    if e.refCount <= 0 then multiset{} else multiset{}[e.fname := e.refCount]
  }

  /** The libraries that the table has loaded itself and must free. */
  function Owned(list: seq<Entry>): multiset<Handle> {
    if list == [] then multiset{} else OwnedBy(list[0]) + Owned(list[1..])
  }

  function OwnedBy(e: Entry): multiset<Handle> {
    if e.needFree then multiset{e.handle} else multiset{}
  }

  lemma {:induction false} Concat(a: seq<Entry>, b: seq<Entry>)
    ensures Held(a + b) == Held(a) + Held(b) && Owned(a + b) == Owned(a) + Owned(b)
  {
    if a == [] {
      assert a + b == b;
    } else {
      assert (a + b)[1..] == a[1..] + b;
      Concat(a[1..], b);
    }
  }

  lemma One(e: Entry)
    ensures Held([e]) == HeldBy(e) && Owned([e]) == OwnedBy(e)
  {
  }

  lemma SplitAt(list: seq<Entry>, k: nat)
    requires k < |list|
    ensures Held(list) == Held(list[..k]) + HeldBy(list[k]) + Held(list[k + 1..])
    ensures Owned(list) == Owned(list[..k]) + OwnedBy(list[k]) + Owned(list[k + 1..])
  {
    hide Held, Owned;
    assert list == list[..k] + [list[k]] + list[k + 1..];
    Concat(list[..k] + [list[k]], list[k + 1..]);
    Concat(list[..k], [list[k]]);
    One(list[k]);
  }

  /** In a table without duplicates, a name is held as often as its entry says. */
  lemma {:induction false} HeldCounts(list: seq<Entry>, fname: string)
    requires Unique(list) && Counted(list)
    ensures Held(list)[fname] == var k := Place(list, fname); if k < |list| then list[k].refCount else 0
  {
    if list != [] {
      assert forall i :: 0 <= i < |list[1..]| ==> list[1..][i] == list[i + 1];
      HeldCounts(list[1..], fname);
      assert list[0].fname == fname ==> !Has(list[1..], fname);
    }
  }

  function Acquired(list: seq<Entry>, k: nat): seq<Entry>
    requires k < |list|
  {
    list[k := list[k].(refCount := list[k].refCount + 1)]
  }

  function Released(list: seq<Entry>, k: nat): seq<Entry>
    requires k < |list|
  {
    if list[k].refCount > 1 then list[k := list[k].(refCount := list[k].refCount - 1)]
    else list[..k] + list[k + 1..]
  }

  lemma Replaced(list: seq<Entry>, k: nat, e: Entry)
    requires k < |list|
    ensures Held(list[k := e]) == Held(list[..k]) + HeldBy(e) + Held(list[k + 1..])
    ensures Owned(list[k := e]) == Owned(list[..k]) + OwnedBy(e) + Owned(list[k + 1..])
  {
    hide Held, Owned, HeldBy, OwnedBy;
    var l := list[k := e];
    SplitAt(l, k);
    assert l[..k] == list[..k] && l[k + 1..] == list[k + 1..];
  }

  lemma OneMore(e: Entry)
    requires e.refCount >= 1
    ensures HeldBy(e.(refCount := e.refCount + 1)) == HeldBy(e) + multiset{e.fname}
    ensures OwnedBy(e.(refCount := e.refCount + 1)) == OwnedBy(e)
    ensures e.refCount == 1 ==> HeldBy(e) == multiset{e.fname}
  {
  }

  lemma Regroup<T>(a: multiset<T>, b: multiset<T>, c: multiset<T>, d: multiset<T>)
    ensures a + (b + d) + c == a + b + c + d
  {
  }

  lemma AcquiredHolds(list: seq<Entry>, k: nat)
    requires k < |list| && Unique(list) && Counted(list)
    ensures Unique(Acquired(list, k)) && Counted(Acquired(list, k))
    ensures Held(Acquired(list, k)) == Held(list) + multiset{list[k].fname}
    ensures Owned(Acquired(list, k)) == Owned(list)
  {
    hide Held, Owned, HeldBy, OwnedBy;
    var e := list[k];
    SplitAt(list, k);
    Replaced(list, k, e.(refCount := e.refCount + 1));
    OneMore(e);
    Regroup(Held(list[..k]), HeldBy(e), Held(list[k + 1..]), multiset{e.fname});
  }

  lemma DecrementHolds(list: seq<Entry>, k: nat)
    requires k < |list| && list[k].refCount > 1
    ensures Held(list) == Held(Released(list, k)) + multiset{list[k].fname}
    ensures Owned(list) == Owned(Released(list, k))
  {
    hide Held, Owned, HeldBy, OwnedBy;
    var e := list[k].(refCount := list[k].refCount - 1);
    SplitAt(list, k);
    Replaced(list, k, e);
    OneMore(e);
    Regroup(Held(list[..k]), HeldBy(e), Held(list[k + 1..]), multiset{e.fname});
  }

  lemma RemoveHolds(list: seq<Entry>, k: nat)
    requires k < |list| && list[k].refCount == 1
    ensures Held(list) == Held(Released(list, k)) + multiset{list[k].fname}
    ensures Owned(list) == Owned(Released(list, k)) + OwnedBy(list[k])
  {
    hide Held, Owned, HeldBy, OwnedBy;
    SplitAt(list, k);
    Concat(list[..k], list[k + 1..]);
    OneMore(list[k]);
    Regroup(Held(list[..k]), multiset{}, Held(list[k + 1..]), multiset{list[k].fname});
    Regroup(Owned(list[..k]), multiset{}, Owned(list[k + 1..]), OwnedBy(list[k]));
  }

  lemma ReleasedShape(list: seq<Entry>, k: nat)
    requires k < |list| && Unique(list) && Counted(list)
    ensures Unique(Released(list, k)) && Counted(Released(list, k))
  {
  }

  lemma AppendedHolds(list: seq<Entry>, e: Entry)
    requires Unique(list) && Counted(list) && !Has(list, e.fname) && e.refCount == 1 && e.handle != 0
    ensures Unique(list + [e]) && Counted(list + [e])
    ensures Held(list + [e]) == Held(list) + multiset{e.fname}
    ensures Owned(list + [e]) == Owned(list) + OwnedBy(e)
  {
    hide Held, Owned, HeldBy, OwnedBy;
    Concat(list, [e]);
    One(e);
    OneMore(e);
  }

  /** The books are kept: every reference ever taken has been given back or is held, and every
      library ever loaded has been freed or is owned. */
  ghost predicate Ledger(list: seq<Entry>, acquired: multiset<string>, released: multiset<string>,
                         loads: multiset<Handle>, frees: multiset<Handle>) {
    && Unique(list) && Counted(list)
    && acquired == released + Held(list)
    && loads == frees + Owned(list)
  }

  lemma LedgerAcquired(list: seq<Entry>, a: multiset<string>, r: multiset<string>,
                       l: multiset<Handle>, f: multiset<Handle>, k: nat)
    requires Ledger(list, a, r, l, f) && k < |list|
    ensures Ledger(Acquired(list, k), a + multiset{list[k].fname}, r, l, f) && list[k].handle != 0
  {
    hide Held, Owned, Unique;
    AcquiredHolds(list, k);
  }

  lemma LedgerAppended(list: seq<Entry>, a: multiset<string>, r: multiset<string>,
                       l: multiset<Handle>, f: multiset<Handle>, e: Entry)
    requires Ledger(list, a, r, l, f) && !Has(list, e.fname) && e.refCount == 1 && e.handle != 0
    ensures Ledger(list + [e], a + multiset{e.fname}, r, l + OwnedBy(e), f)
  {
    hide Held, Owned, Unique, Counted, Has;
    AppendedHolds(list, e);
  }

  lemma LedgerReleased(list: seq<Entry>, a: multiset<string>, r: multiset<string>,
                       l: multiset<Handle>, f: multiset<Handle>, k: nat)
    requires Ledger(list, a, r, l, f) && k < |list|
    ensures var f' := if list[k].refCount > 1 then f else f + OwnedBy(list[k]);
            Ledger(Released(list, k), a, r + multiset{list[k].fname}, l, f')
  {
    hide Held, Owned, OwnedBy, Unique, Released;
    ReleasedShape(list, k);
    if list[k].refCount > 1 {
      DecrementHolds(list, k);
    } else {
      RemoveHolds(list, k);
    }
  }

  lemma LedgerCleared(list: seq<Entry>, a: multiset<string>, r: multiset<string>,
                      l: multiset<Handle>, f: multiset<Handle>)
    requires Ledger(list, a, r, l, f)
    ensures r + Held(list) == a && f + Owned(list) == l && Ledger([], a, a, l, l)
  {
  }

  lemma OwnedPrefix(list: seq<Entry>, i: nat)
    requires i < |list|
    ensures Owned(list[..i + 1]) == Owned(list[..i]) + OwnedBy(list[i])
  {
    hide Owned, OwnedBy, Held, HeldBy;
    assert list[..i + 1] == list[..i] + [list[i]];
    Concat(list[..i], [list[i]]);
    One(list[i]);
  }

  /** Taking a reference and giving it back leaves the table as it was. */
  lemma AcquireRelease(list: seq<Entry>, k: nat, e: Entry)
    requires Counted(list)
    ensures k < |list| ==> Released(Acquired(list, k), k) == list
    ensures k == |list| && e.refCount == 1 ==> Released(list + [e], k) == list
  {
  }

  lemma NotThere(fname: string)
    ensures Place([], fname) == 0 && !Has([], fname)
  {
  }

  lemma TakenFrom(e: Entry)
    requires e.needFree
    ensures OwnedBy(e) == multiset{e.handle}
  {
  }

  lemma LastReference(e: Entry)
    requires e.refCount == 1
    ensures Held([]) == multiset{} && Owned([]) == multiset{}
    ensures Has([e], e.fname) && Place([e], e.fname) == 0 && Released([e], 0) == []
  {
    assert [e][0].fname == e.fname;
  }

  lemma PlaceUnique(list: seq<Entry>, fname: string, k: nat)
    requires Unique(list) && k < |list| && list[k].fname == fname
    ensures Place(list, fname) == k
  {
  }

  lemma GivenBack(was: seq<Entry>, fname: string, e: Entry)
    requires Unique(was) && Counted(was) && e.fname == fname && e.refCount == 1 && e.handle != 0
    ensures var k := Place(was, fname);
            var now := if k < |was| then Acquired(was, k) else was + [e];
            Has(now, fname) && Released(now, Place(now, fname)) == was
  {
    hide Acquired, Released, Counted;
    var k := Place(was, fname);
    AcquireRelease(was, k, e);
    if k < |was| {
      AcquiredHolds(was, k);
      AcquiredKeepsNames(was, k);
      PlaceUnique(Acquired(was, k), fname, k);
    } else {
      var now := was + [e];
      AppendedHolds(was, e);
      assert now[k].fname == fname;
      PlaceUnique(now, fname, k);
    }
  }

  lemma AcquiredKeepsNames(list: seq<Entry>, k: nat)
    requires k < |list|
    ensures |Acquired(list, k)| == |list| && Acquired(list, k)[k].fname == list[k].fname
  {
  }

  lemma ReleasedDiffers(list: seq<Entry>, fname: string)
    requires Has(list, fname)
    ensures Released(list, Place(list, fname)) != list
  {
    var k := Place(list, fname);
    if list[k].refCount > 1 {
      assert Released(list, k)[k].refCount != list[k].refCount;
    } else {
      assert |Released(list, k)| != |list|;
    }
  }

  /** The handle that a caller gets: from the table, from memory, or by loading; 0 if there is none. */
  function Obtained(list: seq<Entry>, fname: string, flag: LoadFlag, answers: Answers): Handle {
    var k := Place(list, fname);
    if flag == GetModuleHandle then answers.inMemory
    else if k < |list| then list[k].handle
    else if answers.inMemory != 0 then answers.inMemory
    else answers.loaded
  }

  /** The table after that. */
  function After(list: seq<Entry>, fname: string, flag: LoadFlag, answers: Answers): seq<Entry> {
    var k, h := Place(list, fname), Obtained(list, fname, flag, answers);
    if flag == GetModuleHandle || h == 0 then list
    else if k < |list| then Acquired(list, k)
    else list + [Entry(fname, answers.inMemory == 0, h, 1)]
  }

  /** What LoadLibrary is called for, successfully, to get the handle: only a library that is neither
      in the table nor in memory, and not if it is only looked for in memory. */
  function Loaded(list: seq<Entry>, fname: string, flag: LoadFlag, answers: Answers): multiset<Handle> {
    if flag != GetModuleHandle && !Has(list, fname) && answers.inMemory == 0 && answers.loaded != 0
    then multiset{answers.loaded} else multiset{}
  }

  /** Every function of the list has an address. */
  predicate AllThere(apis: seq<ApiInfo>, dll: Handle, address: (Handle, string) -> Handle) {
    forall i :: 0 <= i < |apis| ==> address(dll, apis[i].name) != 0
  }

  // ----- The table as it is kept

  class Table {
    var list: seq<Entry>
    /** What LoadLibrary and FreeLibrary have been called with so far. */
    ghost var loads: multiset<Handle>
    ghost var frees: multiset<Handle>
    /** Who has taken and given back references so far. */
    ghost var acquired: multiset<string>
    ghost var released: multiset<string>

    ghost predicate Valid()
      reads this
    {
      Ledger(list, acquired, released, loads, frees)
    }

    constructor ()
      ensures Valid() && list == [] && loads == frees == multiset{} && acquired == released == multiset{}
    {
      list, loads, frees, acquired, released := [], multiset{}, multiset{}, multiset{}, multiset{};
    }

    lemma Sound()
      requires Valid()
      ensures Unique(list) && Counted(list)
    {
      hide Held, Owned;
    }

    lemma Books()
      requires Valid()
      ensures acquired == released + Held(list) && loads == frees + Owned(list)
    {
    }

    method Find(fname: string) returns (i: nat)
      requires Valid()
      ensures i == Place(list, fname)
    {
      hide Ledger;
      Sound();
      i := 0;
      while i < |list| && list[i].fname != fname
        invariant i <= |list| && forall k :: 0 <= k < i ==> list[k].fname != fname
      {
        i := i + 1;
      }
      if i < |list| {
        PlaceUnique(list, fname, i);
      } else {
        assert !Has(list, fname);
      }
    }

    /** Gets a library for a caller: from the table, from memory, or by loading it. */
    method GetHandle(fname: string, flag: LoadFlag, answers: Answers) returns (module_: Handle)
      requires Valid()
      modifies this
      ensures Valid() && frees == old(frees) && released == old(released)
      ensures acquired == old(acquired) +
                          if module_ != 0 && flag != GetModuleHandle then multiset{fname} else multiset{}
      ensures module_ == Obtained(old(list), fname, flag, answers)
      ensures list == After(old(list), fname, flag, answers)
      ensures loads == old(loads) + Loaded(old(list), fname, flag, answers)
      ensures flag == GetModuleHandle ==> loads == old(loads)
    {
      hide Ledger, Held, Owned, Unique, Counted, Place;
      if flag != GetModuleHandle {
        var i := Find(fname);
        if i < |list| {
          LedgerAcquired(list, acquired, released, loads, frees, i);
          acquired := acquired + multiset{fname};
          list := list[i := list[i].(refCount := list[i].refCount + 1)];
          return list[i].handle;
        }
      }
      module_ := answers.inMemory;
      if flag == GetModuleHandle {
        return;
      }
      assert !Has(list, fname);
      module_ := NewHandle(fname, flag, answers);
    }

    /** The part for a library that is not in the table. */
    method NewHandle(fname: string, ghost flag: LoadFlag, answers: Answers) returns (module_: Handle)
      requires Valid() && !Has(list, fname) && flag != GetModuleHandle
      modifies this
      ensures Valid() && frees == old(frees) && released == old(released)
      ensures acquired == if module_ != 0 then old(acquired) + multiset{fname} else old(acquired)
      ensures module_ == if answers.inMemory != 0 then answers.inMemory else answers.loaded
      ensures list == if module_ == 0 then old(list) else old(list) + [Entry(fname, answers.inMemory == 0, module_, 1)]
      ensures loads == if answers.inMemory == 0 && module_ != 0 then old(loads) + multiset{module_} else old(loads)
    {
      hide Ledger, Has;
      ghost var before := loads;
      module_ := answers.inMemory;
      var needFree := false;
      if module_ == 0 {
        module_ := LoadLibrary(answers);
        if module_ == 0 {
          return;
        }
        needFree := true;
      }
      Add(fname, needFree, module_, before);
    }

    method LoadLibrary(answers: Answers) returns (h: Handle)
      modifies this`loads
      ensures h == answers.loaded && loads == if h == 0 then old(loads) else old(loads) + multiset{h}
    {
      h := answers.loaded;
      if h != 0 {
        loads := loads + multiset{h};
      }
    }

    method FreeLibrary(h: Handle)
      modifies this`frees
      ensures frees == old(frees) + multiset{h}
    {
      frees := frees + multiset{h};
    }

    /** Frees what has been loaded for an entry. */
    method DllFree(p: Entry)
      modifies this`frees
      ensures frees == old(frees) + OwnedBy(p)
    {
      if p.needFree {
        FreeLibrary(p.handle);
      }
    }

    /** Puts a library into the table, whose books were in order when `before` had been loaded. */
    method Add(fname: string, needFree: bool, handle: Handle, ghost before: multiset<Handle>)
      requires Ledger(list, acquired, released, before, frees) && !Has(list, fname) && handle != 0
      requires loads == if needFree then before + multiset{handle} else before
      modifies this`list, this`acquired
      ensures Valid() && list == old(list) + [Entry(fname, needFree, handle, 1)]
      ensures acquired == old(acquired) + multiset{fname}
    {
      hide Ledger, Has;
      var e := Entry(fname, needFree, handle, 1);
      LedgerAppended(list, acquired, released, before, frees, e);
      assert before + OwnedBy(e) == loads;
      acquired := acquired + multiset{fname};
      list := list + [e];
    }

    /** Gives one reference back; the last one frees the library, if the table loaded it. */
    method FreeFromList(no: nat)
      requires Valid() && no < |list|
      modifies this
      ensures Valid() && list == Released(old(list), no)
      ensures loads == old(loads) && acquired == old(acquired)
      ensures released == old(released) + multiset{old(list)[no].fname}
      ensures var e := old(list)[no];
              frees == if e.refCount > 1 then old(frees) else old(frees) + OwnedBy(e)
    {
      hide Ledger, Held, Owned, OwnedBy, Unique, Counted;
      LedgerReleased(list, acquired, released, loads, frees, no);
      released := released + multiset{list[no].fname};
      var p := list[no];
      list := list[no := p.(refCount := p.refCount - 1)];
      if list[no].refCount > 0 {
        return;
      }
      DllFree(p);
      list := list[..no] + list[no + 1..];
    }

    method FreeByFileName(fname: string)
      requires Valid()
      modifies this
      ensures Valid() && loads == old(loads) && acquired == old(acquired)
      ensures !Has(old(list), fname) ==>
                list == old(list) && frees == old(frees) && released == old(released)
      ensures Has(old(list), fname) ==>
                && list == Released(old(list), Place(old(list), fname))
                && released == old(released) + multiset{fname}
    {
      hide Ledger, Held, Owned;
      var i := Find(fname);
      if i < |list| {
        FreeFromList(i);
      }
    }

    method FreeByHandle(handle: Handle)
      requires Valid()
      modifies this
      ensures Valid() && loads == old(loads) && acquired == old(acquired)
      ensures (forall i :: 0 <= i < |old(list)| ==> old(list)[i].handle != handle) ==>
                list == old(list) && frees == old(frees) && released == old(released)
      ensures (exists i :: 0 <= i < |old(list)| && old(list)[i].handle == handle) ==>
                exists i :: && 0 <= i < |old(list)| && old(list)[i].handle == handle
                            && list == Released(old(list), i)
                            && released == old(released) + multiset{old(list)[i].fname}
    {
      hide Ledger, Held, Owned, Unique, Counted, Released;
      var i := 0;
      while i < |list|
        invariant 0 <= i <= |list| && forall k :: 0 <= k < i ==> list[k].handle != handle
      {
        if list[i].handle == handle {
          FreeFromList(i);
          return;
        }
        i := i + 1;
      }
    }

    /** Looks up a list of functions. If one is missing and must not be, every place is set to NULL
        and the reference is given back; that restores the table unless the library was only looked
        for in memory while somebody else holds it through the table. */
    method GetApiAddressFromList(fname: string, flag: LoadFlag, funcFlag: FuncFlag, apis: seq<ApiInfo>,
                                 memory: array<Handle>, answers: Answers, address: (Handle, string) -> Handle)
        returns (status: Status, handle: Handle)
      requires Valid() && forall i :: 0 <= i < |apis| ==> apis[i].func < memory.Length
      modifies this, memory
      ensures Valid()
      ensures var dll := Obtained(old(list), fname, flag, answers);
              && (status == FileNotFound <==> dll == 0)
              && (status == NoError <==> dll != 0 && (funcFlag == AcceptNotExist || AllThere(apis, dll, address)))
              && handle == if status == NoError then dll else 0
      ensures Untouched(memory[..], old(memory[..]), apis)
      ensures status != NoError ==> forall i :: 0 <= i < |apis| ==> memory[apis[i].func] == 0
      ensures status != NoError ==>
                (list == old(list) <==>
                   !(flag == GetModuleHandle && answers.inMemory != 0 && Has(old(list), fname)))
      ensures flag == GetModuleHandle && answers.inMemory != 0 && status != NoError && Has(old(list), fname) ==>
                list == Released(old(list), Place(old(list), fname))
      ensures loads == old(loads) + Loaded(old(list), fname, flag, answers)
      ensures flag == GetModuleHandle ==> loads == old(loads) && acquired == old(acquired)
      ensures status == NoError ==>
                && list == After(old(list), fname, flag, answers)
                && frees == old(frees) && released == old(released)
                && acquired == old(acquired) + (if flag == GetModuleHandle then multiset{} else multiset{fname})
                && forall i :: 0 <= i < |apis| && LastFor(apis, i) ==>
                     memory[apis[i].func] == address(handle, apis[i].name)
    {
      hide Ledger, Held, Owned, Acquired, Released, Unique, Counted, Place, Loaded;
      ghost var was := list;
      Sound();
      var dll := GetHandle(fname, flag, answers);
      if dll == 0 {
        Nullify(apis, memory);
        return FileNotFound, 0;
      }
      var existAll := LookUp(apis, memory, dll, address);
      if existAll || funcFlag == AcceptNotExist {
        return NoError, dll;
      }
      Nullify(apis, memory);
      FreeByFileName(fname);
      if flag == GetModuleHandle {
        if Has(was, fname) {
          ReleasedDiffers(was, fname);
        }
      } else {
        GivenBack(was, fname, Entry(fname, answers.inMemory == 0, dll, 1));
      }
      return ProcNotFound, 0;
    }

    /** Frees whatever is left. Afterwards the loader is owed nothing. */
    method Exit()
      requires Valid()
      modifies this
      ensures Valid() && list == [] && loads == old(loads) && frees == loads && released == acquired
      ensures acquired == old(acquired)
    {
      hide Ledger, Held, Owned, OwnedBy;
      var i := 0;
      LedgerCleared(list, acquired, released, loads, frees);
      assert list[..0] == [];
      NothingOwned();
      while i < |list|
        modifies this`frees
        invariant 0 <= i <= |list|
        invariant frees == old(frees) + Owned(list[..i])
      {
        OwnedPrefix(list, i);
        DllFree(list[i]);
        i := i + 1;
      }
      assert list[..i] == list;
      released := released + Held(list);
      list := [];
    }
  }

  lemma NothingOwned()
    ensures Owned([]) == multiset{}
  {
  }

  /** A library that is in memory already is neither loaded nor freed by the table. */
  method NotOurs(lib: Handle) returns (t: Table)
    requires lib != 0
    ensures t.Valid() && t.loads == t.frees == multiset{}
  {
    hide Held, Owned, Unique, Counted, Ledger, Place, Has;
    t := new Table();
    NotThere("kernel32.dll");
    var h := t.GetHandle("kernel32.dll", LoadSystem, Answers(lib, 0));
    assert t.loads == multiset{} + multiset{};
    t.Exit();
  }

  /** One caller holds a library that another looks for in memory, in vain: the first one's reference is
      gone, and the library is freed. */
  method LostReference(lib: Handle) returns (t: Table, held: Handle)
    requires lib != 0
    ensures held == lib && t.Valid() && t.list == []
    ensures t.acquired == t.released == multiset{"a.dll"} && t.loads == t.frees == multiset{lib}
  {
    hide Held, Owned, Released, Place, Unique, Counted, Ledger, OwnedBy, HeldBy;
    t := new Table();
    NotThere("a.dll");
    held := t.GetHandle("a.dll", LoadSystem, Answers(0, lib));
    var e := Entry("a.dll", true, lib, 1);
    assert t.list == [e] && t.acquired == multiset{"a.dll"};
    LastReference(e);
    t.Books();
    One(e);
    OneMore(e);
    assert OwnedBy(e) == multiset{lib} by { TakenFrom(e); }
    assert t.loads == multiset{lib};
    t.Sound();
    var memory := new Handle[1];
    var status, h := t.GetApiAddressFromList("a.dll", GetModuleHandle, ErrorNotExist, [ApiInfo("f", 0)], memory,
                                             Answers(lib, 0), (h, f) => 0);
    assert status != NoError by {
      assert [ApiInfo("f", 0)][0].name == "f";
    }
    t.Books();
    assert t.released == multiset{"a.dll"} && t.frees == multiset{lib};
  }

  /** No later entry below `n` is for the same place. */
  predicate LastBelow(apis: seq<ApiInfo>, i: nat, n: nat)
    requires i < n <= |apis|
  {
    forall j :: i < j < n ==> apis[j].func != apis[i].func
  }

  predicate LastFor(apis: seq<ApiInfo>, i: nat)
    requires i < |apis|
  {
    LastBelow(apis, i, |apis|)
  }

  /** Memory is as before but for the places named in the list. */
  predicate Untouched(now: seq<Handle>, before: seq<Handle>, apis: seq<ApiInfo>) {
    |now| == |before| &&
    forall m :: 0 <= m < |now| && (forall i :: 0 <= i < |apis| ==> apis[i].func != m) ==> now[m] == before[m]
  }

  /** Stores the address of every function of a library. */
  method LookUp(apis: seq<ApiInfo>, memory: array<Handle>, dll: Handle, address: (Handle, string) -> Handle)
      returns (existAll: bool)
    requires forall i :: 0 <= i < |apis| ==> apis[i].func < memory.Length
    modifies memory
    ensures Untouched(memory[..], old(memory[..]), apis)
    ensures existAll <==> AllThere(apis, dll, address)
    ensures forall k :: 0 <= k < |apis| && LastFor(apis, k) ==> memory[apis[k].func] == address(dll, apis[k].name)
  {
    var i := 0;
    existAll := true;
    while i < |apis|
      invariant 0 <= i <= |apis| && Untouched(memory[..], old(memory[..]), apis)
      invariant existAll <==> forall k :: 0 <= k < i ==> address(dll, apis[k].name) != 0
      invariant forall k :: 0 <= k < i && LastBelow(apis, k, i) ==> memory[apis[k].func] == address(dll, apis[k].name)
    {
      memory[apis[i].func] := address(dll, apis[i].name);
      if memory[apis[i].func] == 0 {
        existAll := false;
      }
      i := i + 1;
    }
  }

  method Nullify(apis: seq<ApiInfo>, memory: array<Handle>)
    requires forall i :: 0 <= i < |apis| ==> apis[i].func < memory.Length
    modifies memory
    ensures Untouched(memory[..], old(memory[..]), apis)
    ensures forall i :: 0 <= i < |apis| ==> memory[apis[i].func] == 0
  {
    var i := 0;
    while i < |apis|
      invariant 0 <= i <= |apis| && Untouched(memory[..], old(memory[..]), apis)
      invariant forall k :: 0 <= k < i ==> memory[apis[k].func] == 0
    {
      memory[apis[i].func] := 0;
      i := i + 1;
    }
  }
}

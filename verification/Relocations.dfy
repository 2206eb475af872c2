/**
  Patching imported symbols in the relocation tables of loaded objects: the per-object cache of
  symbol slots, the list of patches, and the replaced dlopen and dlclose.
  */
module Relocations {
  import opened Bytes

  datatype Reloc = Reloc(symbol: string, offset: int)

  datatype ProgramHeader = Load(vaddr: int, memsz: int) | Dynamic | OtherHeader

  /** A loaded object; `tables` tells whether it has a symbol and a string table. */
  datatype Object = Object(base: int, name: string, headers: seq<ProgramHeader>, tables: bool,
                           jmprel: Option<seq<Reloc>>, rela: Option<seq<Reloc>>)

  datatype Info = Info(symbols: map<string, int>, start: int, end: int)

  datatype Patch = Patch(symbol: string, value: int, prev: Option<int>, blacklist: seq<string>)

  datatype Status = Ok | Unsupported

  const UINTPTR_MAX: int := TWO64 - 1

  // ----- the symbols of an object -----

  /** The slots after adding those of a table: names already known and empty names are skipped. */
  function Added(symbols: map<string, int>, base: int, table: seq<Reloc>): map<string, int>
    decreases |table|
  {
    if table == [] then symbols
    else
      var s, r := Added(symbols, base, table[..|table| - 1]), table[|table| - 1];
      if r.symbol == "" || r.symbol in s then s else s[r.symbol := base + r.offset]
  }

  function Entries(table: Option<seq<Reloc>>): seq<Reloc> { if table.Some? then table.value else [] }

  ghost predicate Readable(o: Object) {
    && (exists i :: 0 <= i < |o.headers| && o.headers[i].Dynamic?)
    && (exists i :: 0 <= i < |o.headers| && o.headers[i].Load?)
    && o.tables
  }

  /** A fresh scan: first .got.plt, then .got. */
  ghost function Scan(o: Object): map<string, int> {
    if Readable(o) then Added(Added(map[], o.base, Entries(o.jmprel)), o.base, Entries(o.rela)) else map[]
  }

  /** The range of an object as the scan computes it: only the lowest address is moved to where the object is. */
  function LoadStart(base: int, headers: seq<ProgramHeader>): int {
    if headers == [] then UINTPTR_MAX
    else
      var start, h := LoadStart(base, headers[..|headers| - 1]), headers[|headers| - 1];
      if h.Load? && base + h.vaddr < start then base + h.vaddr else start
  }

  function LoadEnd(headers: seq<ProgramHeader>): int {
    if headers == [] then 0
    else
      var end, h := LoadEnd(headers[..|headers| - 1]), headers[|headers| - 1];
      if h.Load? && end < h.vaddr + h.memsz then h.vaddr + h.memsz else end
  }

  ghost function InfoOf(o: Object): Info { Info(Scan(o), LoadStart(o.base, o.headers), LoadEnd(o.headers)) }

  /** Taken for a pointer back into the object. */
  ghost predicate TakenForOwn(o: Object, v: int) { InfoOf(o).start <= v < InfoOf(o).end }

  /** An address in a loaded segment of the object. */
  ghost predicate Loaded(o: Object, v: int) {
    exists i :: 0 <= i < |o.headers| && o.headers[i].Load? &&
                o.base + o.headers[i].vaddr <= v < o.base + o.headers[i].vaddr + o.headers[i].memsz
  }

  lemma {:induction false} RangeHolds(base: int, headers: seq<ProgramHeader>, i: nat)
    requires i < |headers| && headers[i].Load?
    ensures LoadStart(base, headers) <= base + headers[i].vaddr
    ensures headers[i].vaddr + headers[i].memsz <= LoadEnd(headers)
  {
    if i < |headers| - 1 {
      RangeHolds(base, headers[..|headers| - 1], i);
    }
  }

  /**
    A pointer of an object back into itself is recognised if and only if it is below the highest end
    in the file: always for a program at its linked address, never for a library far above it.
    */
  lemma OwnRecognised(o: Object, v: int)
    requires Loaded(o, v)
    ensures TakenForOwn(o, v) <==> v < LoadEnd(o.headers)
    ensures o.base == 0 ==> TakenForOwn(o, v)
    ensures o.base >= LoadEnd(o.headers) && (forall h :: h in o.headers && h.Load? ==> h.vaddr >= 0) ==>
              !TakenForOwn(o, v)
  {
    var i :| 0 <= i < |o.headers| && o.headers[i].Load? &&
             o.base + o.headers[i].vaddr <= v < o.base + o.headers[i].vaddr + o.headers[i].memsz;
    RangeHolds(o.base, o.headers, i);
    assert o.headers[i] in o.headers;
  }

  /** A library of one page at 64 KB: a pointer into it is not taken for its own. */
  lemma OwnPointerMissed()
    ensures var o := Object(0x1_0000, "lib", [Load(0, 0x1000), Dynamic], true, None, None);
            Loaded(o, 0x1_0800) && !TakenForOwn(o, 0x1_0800)
  {
    var o := Object(0x1_0000, "lib", [Load(0, 0x1000), Dynamic], true, None, None);
    assert o.headers[0] == Load(0, 0x1000);
    assert o.headers[..1] == [Load(0, 0x1000)] && o.headers[..1][..0] == [];
    assert LoadEnd(o.headers[..1]) == 0x1000;
  }

  /** The first relocation for a name, or the length of the table. */
  function First(table: seq<Reloc>, name: string): (k: nat)
    ensures k <= |table| && (k < |table| ==> table[k].symbol == name)
    ensures forall i :: 0 <= i < k ==> table[i].symbol != name
  {
    if table == [] then 0
    else
      var k := First(table[..|table| - 1], name);
      if k < |table| - 1 || table[|table| - 1].symbol == name then k else |table|
  }

  lemma {:induction false} AddedExactly(symbols: map<string, int>, base: int, table: seq<Reloc>, name: string)
    ensures var k := First(table, name);
            && (name in Added(symbols, base, table) <==> name in symbols || (name != "" && k < |table|))
            && (name in Added(symbols, base, table) ==>
                  Added(symbols, base, table)[name] ==
                  if name in symbols then symbols[name] else base + table[k].offset)
    decreases |table|
  {
    if table != [] {
      AddedExactly(symbols, base, table[..|table| - 1], name);
    }
  }

  /** The slot of a name: that of its first relocation, .got.plt before .got. */
  lemma ScanExactly(o: Object, name: string)
    ensures var plt, got := Entries(o.jmprel), Entries(o.rela);
            var i, j := First(plt, name), First(got, name);
            && (name in Scan(o) <==> Readable(o) && name != "" && (i < |plt| || j < |got|))
            && (name in Scan(o) ==> Scan(o)[name] == o.base + (if i < |plt| then plt[i].offset else got[j].offset))
  {
    hide Readable;
    AddedExactly(map[], o.base, Entries(o.jmprel), name);
    AddedExactly(Added(map[], o.base, Entries(o.jmprel)), o.base, Entries(o.rela), name);
  }

  // ----- a symbol with several slots -----

  function Relocs(o: Object): seq<Reloc> { Entries(o.jmprel) + Entries(o.rela) }

  lemma {:induction false} FirstOfBoth(s: seq<Reloc>, t: seq<Reloc>, name: string)
    ensures First(s + t, name) == if First(s, name) < |s| then First(s, name) else |s| + First(t, name)
    decreases |t|
  {
    if t == [] {
      assert s + t == s;
    } else {
      FirstOfBoth(s, t[..|t| - 1], name);
      assert (s + t)[..|s + t| - 1] == s + t[..|t| - 1];
    }
  }

  /** Every slot of the symbol, in either table. */
  ghost predicate EverySlot(p: Patch, o: Object, slots: Slots) {
    forall i :: 0 <= i < |Relocs(o)| && Relocs(o)[i].symbol == p.symbol ==>
      slots(o.base + Relocs(o)[i].offset) == p.value
  }

  /**
    Only the first slot of a symbol is written.  All of them hold the replacement afterwards if and
    only if each of the others is the same slot or held it already.
    */
  lemma SecondSlot(o: Object, p: Patch, slots: Slots, slots': Slots)
    requires p.symbol in Scan(o) && forall a :: slots'(a) == ValueAfter(slots, Scan(o), p, a)
    ensures var first := First(Relocs(o), p.symbol);
            && first < |Relocs(o)|
            && (EverySlot(p, o, slots') <==>
                forall i :: first < i < |Relocs(o)| && Relocs(o)[i].symbol == p.symbol ==>
                  Relocs(o)[i].offset == Relocs(o)[first].offset || slots(o.base + Relocs(o)[i].offset) == p.value)
  {
    hide Scan;
    ScanExactly(o, p.symbol);
    FirstOfBoth(Entries(o.jmprel), Entries(o.rela), p.symbol);
    var first := First(Relocs(o), p.symbol);
    assert Scan(o)[p.symbol] == o.base + Relocs(o)[first].offset;
  }

  /** A function that is called and whose address is taken has a slot in either table; the second is not patched. */
  lemma SecondSlotMissed()
    ensures var o := Object(0x1000, "a", [Load(0, 64), Dynamic], true, Some([Reloc("malloc", 8)]),
                            Some([Reloc("malloc", 16)]));
            var p := Patch("malloc", 1, None, []);
            p.symbol in Scan(o) && ValueAfter(_ => 7, Scan(o), p, 0x1008) == 1
            && ValueAfter(_ => 7, Scan(o), p, 0x1010) == 7
  {
    var s, t := [Reloc("malloc", 8)], [Reloc("malloc", 16)];
    var o := Object(0x1000, "a", [Load(0, 64), Dynamic], true, Some(s), Some(t));
    assert o.headers[0].Load? && o.headers[1].Dynamic?;
    ScanExactly(o, "malloc");
    assert First(s, "malloc") == 0;
  }

  // ----- blacklists -----

  predicate Contains(s: string, part: string) {
    exists i :: 0 <= i <= |s| && part <= s[i..]
  }

  predicate Blacklisted(p: Patch, o: Object) {
    exists i :: 0 <= i < |p.blacklist| && Contains(o.name, p.blacklist[i])
  }

  // ----- what must hold -----

  type Slots = int -> int

  /** The slot of the patched symbol, if the object has one and is not excluded, holds the replacement. */
  ghost predicate Holds(p: Patch, o: Object, slots: Slots) {
    !Blacklisted(p, o) && p.symbol in Scan(o) ==> slots(Scan(o)[p.symbol]) == p.value
  }

  ghost predicate HoldsIn(p: Patch, objects: seq<Object>, slots: Slots) {
    forall i :: 0 <= i < |objects| ==> Holds(p, objects[i], slots)
  }

  /** Objects lie at different bases, and no slot serves two symbols. */
  ghost predicate Separate(objects: seq<Object>) {
    && (forall i, j :: 0 <= i < j < |objects| ==> objects[i].base != objects[j].base)
    && (forall i, j :: 0 <= i < |objects| && 0 <= j < |objects| ==> Apart(objects[i], objects[j]))
  }

  ghost predicate Apart(a: Object, b: Object) {
    forall s, t :: s in Scan(a) && t in Scan(b) && s != t ==> Scan(a)[s] != Scan(b)[t]
  }

  /** Every cached entry is that of a loaded object and equals a fresh scan of it. */
  ghost predicate CacheExact(cache: map<int, Info>, objects: seq<Object>) {
    forall base :: base in cache ==> CachedFrom(cache[base], base, objects)
  }

  ghost predicate CachedFrom(info: Info, base: int, objects: seq<Object>) {
    exists i :: 0 <= i < |objects| && objects[i].base == base && info == InfoOf(objects[i])
  }

  ghost predicate DistinctSymbols(patches: seq<Patch>) {
    forall i, j :: 0 <= i < j < |patches| ==> patches[i].symbol != patches[j].symbol
  }

  /** The previous value kept for a patch is never the replacement. */
  predicate PrevSound(p: Patch) { p.prev != Some(p.value) }

  predicate SamePatch(p: Patch, q: Patch) { q == p.(prev := q.prev) && (PrevSound(q) || q.prev == p.prev) }

  // ----- steps of the proofs -----

  function Written(slots: Slots, a: int, v: int): Slots { x => if x == a then v else slots(x) }

  /** Writing the slot of one symbol keeps the patches of the others. */
  lemma WriteKeeps(p: Patch, objects: seq<Object>, slots: Slots, o: Object, symbol: string, v: int)
    requires Separate(objects) && o in objects && symbol in Scan(o) && p.symbol != symbol && HoldsIn(p, objects, slots)
    ensures HoldsIn(p, objects, Written(slots, Scan(o)[symbol], v))
  {
    var k :| 0 <= k < |objects| && objects[k] == o;
    forall i | 0 <= i < |objects| ensures Holds(p, objects[i], Written(slots, Scan(o)[symbol], v)) {
      assert Holds(p, objects[i], slots) && Apart(objects[i], objects[k]);
    }
  }

  /** Writing the replacement of a symbol keeps the slots that already hold it. */
  lemma WriteOwnKeeps(p: Patch, objects: seq<Object>, slots: Slots, a: int)
    requires HoldsIn(p, objects, slots)
    ensures HoldsIn(p, objects, Written(slots, a, p.value))
  {
    forall i | 0 <= i < |objects| ensures Holds(p, objects[i], Written(slots, a, p.value)) {
      assert Holds(p, objects[i], slots);
    }
  }

  lemma HoldsOneMore(p: Patch, objects: seq<Object>, k: nat, slots: Slots)
    requires k < |objects| && HoldsIn(p, objects[..k], slots) && Holds(p, objects[k], slots)
    ensures HoldsIn(p, objects[..k + 1], slots)
  {
    var front := objects[..k + 1];
    forall i | 0 <= i < |front| ensures Holds(p, front[i], slots) {
      if i < k {
        assert Holds(p, objects[..k][i], slots);
      }
    }
  }

  class Relocator {
    /** Loaded objects, in the order in which they are iterated over. */
    var objects: seq<Object>
    var slots: Slots
    var cache: map<int, Info>
    var patches: seq<Patch>

    ghost predicate Valid()
      reads this
    {
      Separate(objects) && CacheExact(cache, objects) && DistinctSymbols(patches)
    }

    /** A registered patch is in force in every loaded object that it is meant for. */
    ghost predicate InForce(j: nat)
      requires j < |patches|
      reads this
    {
      HoldsIn(patches[j], objects, slots)
    }

    constructor (objects: seq<Object>, slots: Slots)
      requires Separate(objects)
      ensures Valid() && this.objects == objects && patches == [] && cache == map[]
    {
      this.objects, this.slots, cache, patches := objects, slots, map[], [];
    }

    static method PopulateSymbols(symbols: map<string, int>, base: int, table: seq<Reloc>)
      returns (symbols': map<string, int>, count: nat)
      ensures symbols' == Added(symbols, base, table) && |symbols'| == |symbols| + count
    {
      symbols', count := symbols, 0;
      for i := 0 to |table|
        invariant symbols' == Added(symbols, base, table[..i]) && |symbols'| == |symbols| + count
      {
        assert table[..i + 1][..i] == table[..i];
        var r := table[i];
        if r.symbol != "" && r.symbol !in symbols' {
          symbols' := symbols'[r.symbol := base + r.offset];
          count := count + 1;
        }
      }
      assert table[..|table|] == table;
    }

    /** Scans the program headers and tables of an object. */
    static method ScanObject(o: Object) returns (info: Info)
      ensures info == InfoOf(o)
    {
      var start, end, dynamic, load := UINTPTR_MAX, 0, false, false;
      for i := 0 to |o.headers|
        invariant dynamic <==> exists k :: 0 <= k < i && o.headers[k].Dynamic?
        invariant load <==> exists k :: 0 <= k < i && o.headers[k].Load?
        invariant start == LoadStart(o.base, o.headers[..i]) && end == LoadEnd(o.headers[..i])
      {
        assert o.headers[..i + 1][..i] == o.headers[..i];
        match o.headers[i]
        case Load(vaddr, memsz) =>
          start := Min(start, o.base + vaddr);
          end := if end < vaddr + memsz then vaddr + memsz else end;
          load := true;
        case Dynamic =>
          dynamic := true;
        case OtherHeader =>
      }
      assert o.headers[..|o.headers|] == o.headers;
      info := Info(map[], start, end);
      if !dynamic || !load || !o.tables {
        return;
      }
      var symbols, count := map[], 0;
      if o.jmprel.Some? {
        symbols, count := PopulateSymbols(symbols, o.base, o.jmprel.value);
      }
      if o.rela.Some? {
        symbols, count := PopulateSymbols(symbols, o.base, o.rela.value);
      }
      info := info.(symbols := symbols);
    }

    /** The cached entry of a loaded object, scanned and added if there is none. */
    method InfoGet(k: nat) returns (info: Info)
      requires Separate(objects) && CacheExact(cache, objects) && k < |objects|
      modifies this`cache
      ensures CacheExact(cache, objects) && info == InfoOf(objects[k])
    {
      hide Scan, Apart;
      var o := objects[k];
      if o.base in cache {
        info := cache[o.base];
        assert CachedFrom(info, o.base, objects);
        return;
      }
      info := ScanObject(o);
      assert CachedFrom(info, o.base, objects);
      cache := cache[o.base := info];
    }

    /** Writes the replacement into the object's slot and keeps the previous value if asked to, unless it is its own. */
    method ApplyTo(info: Info, storePrev: bool, patch: Patch) returns (patch': Patch)
      modifies this`slots
      ensures SamePatch(patch, patch')
      ensures var found := patch.symbol in info.symbols;
              var prev := if found then old(slots)(info.symbols[patch.symbol]) else patch.value;
              var kept := storePrev && prev != patch.value && !(info.start <= prev < info.end);
              patch' == if kept then patch.(prev := Some(prev)) else patch
      ensures forall a :: slots(a) == ValueAfter(old(slots), info.symbols, patch, a)
      ensures patch.symbol !in info.symbols ==> slots == old(slots)
      ensures patch.symbol in info.symbols ==>
                (slots == old(slots) && slots(info.symbols[patch.symbol]) == patch.value)
                || slots == Written(old(slots), info.symbols[patch.symbol], patch.value)
    {
      patch' := patch;
      if patch.symbol !in info.symbols {
        return;
      }
      var entry := info.symbols[patch.symbol];
      var prev := slots(entry);
      if prev == patch.value {
        return;
      }
      slots := Written(slots, entry, patch.value);
      if storePrev && !(info.start <= prev < info.end) {
        patch' := patch.(prev := Some(prev));
      }
    }

    /**
      Applies a patch to all objects in turn; making a page writable may fail at one of them, and
      then the objects after it are not reached.  Patches of other symbols stay in force.
      */
    method ApplyPatch(patch: Patch, libucm: int, failAt: nat) returns (status: Status, patch': Patch)
      requires Separate(objects) && CacheExact(cache, objects)
      modifies this`slots, this`cache
      ensures CacheExact(cache, objects) && SamePatch(patch, patch') && (failAt >= |objects| ==> status == Ok)
      ensures status == Ok ==> HoldsIn(patch, objects, slots)
      ensures forall p: Patch ::
                p.symbol != patch.symbol && HoldsIn(p, objects, old(slots)) ==> HoldsIn(p, objects, slots)
    {
      hide Separate, CacheExact, HoldsIn, Holds, Scan, Blacklisted;
      status, patch' := Ok, patch;
      assert HoldsIn(patch, objects[..0], slots) by { HoldsNone(patch, slots); }
      for k := 0 to |objects|
        invariant CacheExact(cache, objects) && SamePatch(patch, patch') && status == Ok
        invariant HoldsIn(patch, objects[..k], slots)
        invariant forall p: Patch ::
                    p.symbol != patch.symbol && HoldsIn(p, objects, old(slots)) ==> HoldsIn(p, objects, slots)
      {
        var o := objects[k];
        var excluded := IsBlacklisted(patch, o);
        if !excluded {
          var info := InfoGet(k);
          if k == failAt {
            return Unsupported, patch';
          }
          var storePrev := o.base == 0 || ((patch'.prev == None || patch'.prev == Some(0)) && o.base == libucm);
          ghost var before := slots;
          patch' := ApplyTo(info, storePrev, patch');
          Applied(patch, k, before);
        } else {
          HoldsExcluded(patch, o, slots);
        }
        HoldsOneMore(patch, objects, k, slots);
      }
      assert objects[..|objects|] == objects;
    }

    /** After an object has been handled it holds the patch, and nothing else is lost. */
    lemma Applied(patch: Patch, k: nat, before: Slots)
      requires Separate(objects) && k < |objects| && HoldsIn(patch, objects[..k], before)
      requires patch.symbol !in Scan(objects[k]) ==> slots == before
      requires patch.symbol in Scan(objects[k]) ==>
                 (slots == before && slots(Scan(objects[k])[patch.symbol]) == patch.value)
                 || slots == Written(before, Scan(objects[k])[patch.symbol], patch.value)
      ensures Holds(patch, objects[k], slots) && HoldsIn(patch, objects[..k], slots)
      ensures forall p: Patch :: p.symbol != patch.symbol && HoldsIn(p, objects, before) ==> HoldsIn(p, objects, slots)
    {
      hide Separate, HoldsIn, Scan, Blacklisted;
      if patch.symbol in Scan(objects[k]) && slots != before {
        WriteOwnKeeps(patch, objects[..k], before, Scan(objects[k])[patch.symbol]);
        forall p: Patch | p.symbol != patch.symbol && HoldsIn(p, objects, before) ensures HoldsIn(p, objects, slots) {
          WriteKeeps(p, objects, before, objects[k], patch.symbol, patch.value);
        }
      }
    }

    static method IsBlacklisted(p: Patch, o: Object) returns (excluded: bool)
      ensures excluded <==> Blacklisted(p, o)
    {
      for i := 0 to |p.blacklist|
        invariant forall k :: 0 <= k < i ==> !Contains(o.name, p.blacklist[k])
      {
        if Contains(o.name, p.blacklist[i]) {
          return true;
        }
      }
      return false;
    }

    /** Registers a patch: applied to every loaded object, and remembered for those loaded later. */
    method Modify(patch: Patch, libucm: int, failAt: nat) returns (status: Status)
      requires Valid() && forall j :: 0 <= j < |patches| ==> patches[j].symbol != patch.symbol
      modifies this`slots, this`cache, this`patches
      ensures Valid() && objects == old(objects)
      ensures if status == Ok then |patches| == |old(patches)| + 1 && patches[..|old(patches)|] == old(patches)
                                   && SamePatch(patch, patches[|old(patches)|]) && InForce(|old(patches)|)
              else patches == old(patches)
      ensures forall j :: 0 <= j < |old(patches)| && old(InForce(j)) ==> InForce(j)
    {
      hide Separate, CacheExact, HoldsIn;
      var patch';
      status, patch' := ApplyPatch(patch, libucm, failAt);
      if status == Ok {
        SameHolds(patch, patch', objects, slots);
        patches := patches + [patch'];
      }
    }

    /**
      Objects are loaded, whatever values their slots have, and all patches are applied again.  The
      application of patch j may fail at object failAt[j], which is ignored; every patch for which it
      does not is in force afterwards, whether or not it was before.
      */
    method DlOpen(added: seq<Object>, loadedSlots: Slots, failAt: seq<nat>)
      requires Valid() && Separate(objects + added) && |failAt| == |patches|
      modifies this
      ensures Valid() && objects == old(objects) + added && |patches| == |old(patches)|
      ensures forall j :: 0 <= j < |patches| ==> SamePatch(old(patches)[j], patches[j])
      ensures forall j :: 0 <= j < |patches| && failAt[j] >= |objects| ==> InForce(j)
    {
      hide Separate, CacheExact, HoldsIn;
      CacheGrows(cache, objects, added);
      objects := objects + added;
      slots := loadedSlots;
      for j := 0 to |patches|
        invariant objects == old(objects) + added && CacheExact(cache, objects) && DistinctSymbols(patches)
        invariant |patches| == |old(patches)| && patches[j..] == old(patches)[j..]
        invariant forall i :: 0 <= i < j ==> SamePatch(old(patches)[i], patches[i])
        invariant forall i :: 0 <= i < j && failAt[i] >= |objects| ==> HoldsIn(patches[i], objects, slots)
      {
        assert patches[j] == patches[j..][0] == old(patches)[j];
        var status, patch' := ApplyPatch(patches[j], 0, failAt[j]);
        if status == Ok {
          SameHolds(patches[j], patch', objects, slots);
        }
        patches := patches[j := patch'];
        assert patches[j + 1..] == old(patches)[j..][1..];
      }
    }

    /** The cached entry of the closed object is dropped, whether or not the object is really unloaded. */
    method DlClose(k: nat, unloaded: bool)
      requires Valid() && k < |objects|
      modifies this`objects, this`cache
      ensures Valid() && objects == if unloaded then old(objects)[..k] + old(objects)[k + 1..] else old(objects)
      ensures old(objects)[k].base !in cache
      ensures forall j :: 0 <= j < |patches| && old(InForce(j)) ==> InForce(j)
    {
      var base := objects[k].base;
      CacheShrinks(cache, objects, k);
      RemovedSeparate(objects, k);
      forall j | 0 <= j < |patches| && InForce(j)
        ensures HoldsIn(patches[j], objects[..k] + objects[k + 1..], slots)
      {
        RemovedKeeps(objects, k, patches[j], slots);
      }
      cache := cache - {base};
      if unloaded {
        objects := objects[..k] + objects[k + 1..];
      }
    }

    /**
      All patches applied to one object through its cached entry, right or stale: every address ends
      up with the value of the patch whose symbol the entry puts there, if there is one.
      */
    method ApplyAll(k: nat)
      requires k < |objects| && objects[k].base in cache
      modifies this`slots
      ensures forall a :: slots(a) == ValueAt(old(slots), cache[objects[k].base].symbols, Meant(patches, objects[k]), a)
    {
      var info := cache[objects[k].base];
      for j := 0 to |patches|
        invariant forall a :: slots(a) == ValueAt(old(slots), info.symbols, Meant(patches[..j], objects[k]), a)
      {
        hide Meant, ValueAt, Blacklisted;
        ghost var slots0 := slots;
        var excluded := IsBlacklisted(patches[j], objects[k]);
        MeantNext(patches, j, objects[k]);
        if !excluded {
          var _ := ApplyTo(info, false, patches[j]);
          forall a
            ensures slots(a) == ValueAt(old(slots), info.symbols, Meant(patches[..j + 1], objects[k]), a)
          {
            ValueNext(old(slots), slots0, info.symbols, Meant(patches[..j], objects[k]), patches[j], a);
          }
        }
      }
      assert patches[..|patches|] == patches;
    }

    /** The same with the entry of an object that is gone: which patches are in force afterwards. */
    method ApplyStale(k: nat, ghost gone: Object)
      requires k < |objects| && objects[k].base in cache && cache[objects[k].base].symbols == Scan(gone)
      requires DistinctSymbols(patches) && Apart(gone, gone)
      modifies this`slots
      ensures forall p :: p in patches && !Blacklisted(p, objects[k]) && p.symbol in Scan(objects[k]) ==>
                (Holds(p, objects[k], slots) <==> StillRight(gone, objects[k], patches, p, old(slots)))
    {
      hide Scan, Blacklisted, Meant, ValueAt, Holds, StillRight;
      ApplyAll(k);
      forall p | p in patches && !Blacklisted(p, objects[k]) && p.symbol in Scan(objects[k])
        ensures Holds(p, objects[k], slots) <==> StillRight(gone, objects[k], patches, p, old(slots))
      {
        UnannouncedReload(gone, objects[k], patches, p, old(slots), slots);
      }
    }
  }

  // ----- a stale entry -----

  /** A slot after one patch was applied with the given table of slots. */
  function ValueAfter(slots: Slots, symbols: map<string, int>, p: Patch, a: int): int {
    if p.symbol in symbols && symbols[p.symbol] == a then p.value else slots(a)
  }

  /** The patches meant for an object. */
  function Meant(patches: seq<Patch>, o: Object): seq<Patch> {
    if patches == [] then []
    else
      var front, p := Meant(patches[..|patches| - 1], o), patches[|patches| - 1];
      if Blacklisted(p, o) then front else front + [p]
  }

  /** A slot after patches were applied one after the other. */
  function ValueAt(slots: Slots, symbols: map<string, int>, patches: seq<Patch>, a: int): int {
    if patches == [] then slots(a)
    else
      var p := patches[|patches| - 1];
      if p.symbol in symbols && symbols[p.symbol] == a then p.value
      else ValueAt(slots, symbols, patches[..|patches| - 1], a)
  }

  lemma MeantNext(patches: seq<Patch>, j: nat, o: Object)
    requires j < |patches|
    ensures var front := Meant(patches[..j], o);
            Meant(patches[..j + 1], o) == if Blacklisted(patches[j], o) then front else front + [patches[j]]
  {
    assert patches[..j + 1][..j] == patches[..j];
  }

  lemma ValueNext(slots: Slots, slots': Slots, symbols: map<string, int>, front: seq<Patch>, p: Patch, a: int)
    requires slots'(a) == ValueAt(slots, symbols, front, a)
    ensures ValueAfter(slots', symbols, p, a) == ValueAt(slots, symbols, front + [p], a)
  {
    assert (front + [p])[..|front|] == front;
  }

  /** A patch whose symbol the table puts at an address. */
  ghost predicate Hits(p: Patch, symbols: map<string, int>, a: int) { p.symbol in symbols && symbols[p.symbol] == a }

  lemma {:induction false} ValueByHit(slots: Slots, symbols: map<string, int>, patches: seq<Patch>, a: int, j: nat)
    requires j < |patches| && Hits(patches[j], symbols, a)
    requires forall i :: 0 <= i < |patches| && Hits(patches[i], symbols, a) ==> i == j
    ensures ValueAt(slots, symbols, patches, a) == patches[j].value
  {
    var front := patches[..|patches| - 1];
    if j < |patches| - 1 {
      assert !Hits(patches[|patches| - 1], symbols, a);
      assert forall i :: 0 <= i < |front| ==> front[i] == patches[i];
      ValueByHit(slots, symbols, front, a, j);
    }
  }

  lemma {:induction false} ValueUntouched(slots: Slots, symbols: map<string, int>, patches: seq<Patch>, a: int)
    requires forall i :: 0 <= i < |patches| ==> !Hits(patches[i], symbols, a)
    ensures ValueAt(slots, symbols, patches, a) == slots(a)
  {
    if patches != [] {
      assert !Hits(patches[|patches| - 1], symbols, a);
      ValueUntouched(slots, symbols, patches[..|patches| - 1], a);
    }
  }

  /** The patches meant for an object are those it is not excluded from. */
  lemma {:induction false} MeantExactly(patches: seq<Patch>, o: Object)
    requires DistinctSymbols(patches)
    ensures DistinctSymbols(Meant(patches, o))
    ensures forall p :: p in Meant(patches, o) <==> p in patches && !Blacklisted(p, o)
  {
    hide Blacklisted;
    if patches != [] {
      var n := |patches| - 1;
      MeantExactly(patches[..n], o);
      assert patches == patches[..n] + [patches[n]];
      forall p | p in Meant(patches[..n], o)
        ensures p.symbol != patches[n].symbol
      {
        var i :| 0 <= i < n && patches[i] == p;
      }
    }
  }

  /**
    An object gives way to another one at the same base without dlclose on its own handle, and its
    entry stays.  Once the patches meant for the other object have been applied through that entry,
    a patch is in force in it if and only if the old object had its symbol at the same slot, or, when
    it had not, the slot happens to hold the replacement: from another patch meant for the object
    whose symbol used to be there, or as loaded.
    */
  lemma UnannouncedReload(gone: Object, other: Object, patches: seq<Patch>, p: Patch, slots: Slots, slots': Slots)
    requires DistinctSymbols(patches) && Apart(gone, gone) && p in patches
    requires !Blacklisted(p, other) && p.symbol in Scan(other)
    requires forall a :: slots'(a) == ValueAt(slots, Scan(gone), Meant(patches, other), a)
    ensures Holds(p, other, slots') <==> StillRight(gone, other, patches, p, slots)
  {
    hide Scan, Blacklisted;
    var stale, a := Scan(gone), Scan(other)[p.symbol];
    var meant := Meant(patches, other);
    MeantExactly(patches, other);
    if i :| 0 <= i < |meant| && Hits(meant[i], stale, a) {
      forall k | 0 <= k < |meant| && Hits(meant[k], stale, a) ensures k == i {
        assert meant[k].symbol == meant[i].symbol;
      }
      ValueByHit(slots, stale, meant, a, i);
      forall q | q in patches && !Blacklisted(q, other) && Hits(q, stale, a) ensures q == meant[i] {
        var k :| 0 <= k < |meant| && meant[k] == q;
      }
      assert meant[i] in patches;
    } else {
      ValueUntouched(slots, stale, meant, a);
      forall q | q in patches && !Blacklisted(q, other) ensures !Hits(q, stale, a) {
        var k :| 0 <= k < |meant| && meant[k] == q;
      }
    }
  }

  ghost predicate StillRight(gone: Object, other: Object, patches: seq<Patch>, p: Patch, slots: Slots)
    requires p.symbol in Scan(other)
  {
    var stale, a := Scan(gone), Scan(other)[p.symbol];
    || Hits(p, stale, a)
    || (exists q :: q in patches && !Blacklisted(q, other) && Hits(q, stale, a) && q.value == p.value)
    || ((forall q :: q in patches && !Blacklisted(q, other) ==> !Hits(q, stale, a)) && slots(a) == p.value)
  }

  /**
    A library with "malloc" at offset 8 replaced by one with "free" there and "malloc" at 16: the
    replacement of malloc ends up in the slot of free, and malloc is not patched.
    */
  lemma WrongSlotPatched()
    ensures var table := Some([Reloc("malloc", 8)]);
            var table' := Some([Reloc("free", 8), Reloc("malloc", 16)]);
            var gone := Object(0x1000, "a", [Load(0, 64), Dynamic], true, table, None);
            var other := gone.(jmprel := table');
            var p := Patch("malloc", 1, None, []);
            && "free" in Scan(other) && "malloc" in Scan(other)
            && Scan(other)["free"] == 0x1008 && Scan(other)["malloc"] == 0x1010
            && ValueAt(_ => 7, Scan(gone), [p], 0x1008) == 1 && ValueAt(_ => 7, Scan(gone), [p], 0x1010) == 7
  {
    var table := [Reloc("malloc", 8)];
    var table' := [Reloc("free", 8), Reloc("malloc", 16)];
    var gone := Object(0x1000, "a", [Load(0, 64), Dynamic], true, Some(table), None);
    var other := gone.(jmprel := Some(table'));
    assert gone.headers[0].Load? && gone.headers[1].Dynamic?;
    assert Readable(gone) && Readable(other);
    ScanExactly(gone, "malloc");
    assert First(table, "malloc") == 0;
    ScanExactly(other, "malloc");
    assert table'[..1] == [Reloc("free", 8)];
    assert First(table', "malloc") == 1;
    ScanExactly(other, "free");
    assert First(table', "free") == 0;
    var p := Patch("malloc", 1, None, []);
    assert ValueAt(_ => 7, Scan(gone), [p][..0], 0x1010) == 7;
  }

  lemma HoldsNone(p: Patch, slots: Slots)
    ensures HoldsIn(p, [], slots)
  {}

  lemma HoldsExcluded(p: Patch, o: Object, slots: Slots)
    requires Blacklisted(p, o)
    ensures Holds(p, o, slots)
  {}

  lemma SameHolds(p: Patch, q: Patch, objects: seq<Object>, slots: Slots)
    requires SamePatch(p, q) && HoldsIn(p, objects, slots)
    ensures HoldsIn(q, objects, slots)
  {
    forall i | 0 <= i < |objects| ensures Holds(q, objects[i], slots) {
      assert Holds(p, objects[i], slots);
    }
  }

  lemma CacheGrows(cache: map<int, Info>, objects: seq<Object>, added: seq<Object>)
    requires CacheExact(cache, objects)
    ensures CacheExact(cache, objects + added)
  {
    forall base | base in cache ensures CachedFrom(cache[base], base, objects + added) {
      assert CachedFrom(cache[base], base, objects);
      var i :| 0 <= i < |objects| && objects[i].base == base && cache[base] == InfoOf(objects[i]);
      assert (objects + added)[i] == objects[i];
    }
  }

  lemma CacheShrinks(cache: map<int, Info>, objects: seq<Object>, k: nat)
    requires CacheExact(cache, objects) && Separate(objects) && k < |objects|
    ensures CacheExact(cache - {objects[k].base}, objects)
    ensures CacheExact(cache - {objects[k].base}, objects[..k] + objects[k + 1..])
  {
    var rest := objects[..k] + objects[k + 1..];
    forall base | base in cache && base != objects[k].base
      ensures CachedFrom(cache[base], base, objects) && CachedFrom(cache[base], base, rest)
    {
      assert CachedFrom(cache[base], base, objects);
      var i :| 0 <= i < |objects| && objects[i].base == base && cache[base].symbols == Scan(objects[i]);
      assert rest[if i < k then i else i - 1] == objects[i];
    }
  }

  lemma RemovedSeparate(objects: seq<Object>, k: nat)
    requires Separate(objects) && k < |objects|
    ensures Separate(objects[..k] + objects[k + 1..])
  {
    var rest := objects[..k] + objects[k + 1..];
    assert forall i :: 0 <= i < |rest| ==> rest[i] == objects[if i < k then i else i + 1];
  }

  lemma RemovedKeeps(objects: seq<Object>, k: nat, p: Patch, slots: Slots)
    requires k < |objects| && HoldsIn(p, objects, slots)
    ensures HoldsIn(p, objects[..k] + objects[k + 1..], slots)
  {
    var rest := objects[..k] + objects[k + 1..];
    forall i | 0 <= i < |rest| ensures Holds(p, rest[i], slots) {
      assert Holds(p, objects[if i < k then i else i + 1], slots);
    }
  }
}

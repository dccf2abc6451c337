/** User address spaces: page tables kept in frames taken from the frame allocator. */
module Paging {
  import opened Common
  import opened LittleEndian
  import opened PageTable
  import Pmm

  /** Physical memory, one content per frame, reached by the kernel through its direct map. */
  class PhysMem {
    var frames: Ram
  }

  /** The tables a page needs below the root. */
  ghost function Path(vpn: nat): set<Key> {
    {KeyOf(vpn, 1), KeyOf(vpn, 2), KeyOf(vpn, 3)}
  }

  /**
   * What an operation did to the allocator and to memory when it turned the free frames in `taken`
   * into data and all other frames it used into new tables, serving only keys in `keys`.
   */
  ghost predicate Grew(free: set<nat>, m: Ram, t: Tables, free': set<nat>, m': Ram, t': Tables, taken: set<nat>,
                       keys: set<Key>) {
    && |m'| == |m|
    && (forall k {:trigger t'[k]} {:trigger t[k]} :: k in t ==> k in t' && t'[k] == t[k])
    && (forall k {:trigger t'[k]} :: k in t' && k !in t ==> t'[k] in free && k in keys)
    && (forall k {:trigger t'[k]} :: k in t' ==> t'[k] !in taken && t'[k] !in free')
    && (forall f {:trigger f in taken} :: f in taken ==> f in free && f !in free')
    && (forall f {:trigger f in free'} :: f in free' ==> f in free)
    && (forall f {:trigger f in t'.Values} :: f in free && f !in free' && f !in taken ==> f in t'.Values)
    && (forall f {:trigger m'[f]} :: 0 <= f < |m| && f !in t'.Values && f !in taken ==> m'[f] == m[f])
  }

  lemma GrewTransitive(free: set<nat>, m: Ram, t: Tables, free': set<nat>, m': Ram, t': Tables, taken: set<nat>,
                       keys: set<Key>,
                       free'': set<nat>, m'': Ram, t'': Tables, taken': set<nat>, keys': set<Key>)
    requires Grew(free, m, t, free', m', t', taken, keys)
    requires Grew(free', m', t', free'', m'', t'', taken', keys')
    ensures Grew(free, m, t, free'', m'', t'', taken + taken', keys + keys')
  {
    forall f | f in t'.Values ensures f in t''.Values {
      var k :| k in t' && t'[k] == f;
      assert k in t'' && t''[k] == f;
    }
  }

  /** Growth by tables alone, after any growth. */
  lemma GrewThen(free: set<nat>, m: Ram, t: Tables, free': set<nat>, m': Ram, t': Tables, taken: set<nat>,
                 free'': set<nat>, m'': Ram, t'': Tables, keys: set<Key>)
    requires Grew(free, m, t, free', m', t', taken, keys)
    requires Grew(free', m', t', free'', m'', t'', {}, keys)
    ensures Grew(free, m, t, free'', m'', t'', taken, keys)
  {
    forall f | f in t'.Values ensures f in t''.Values {
      var k :| k in t' && t'[k] == f;
      assert k in t'' && t''[k] == f;
    }
  }

  lemma GrewByTable(free: set<nat>, m: Ram, t: Tables, root: nat, k: Key, i: nat, frame: nat)
    requires Tree(m, root, t) && k in t && i < ENTRIES_PER_TABLE && frame < |m|
    requires Child(k, i) !in t && frame in free
    requires forall l {:trigger t[l]} :: l in t ==> t[l] !in free
    ensures Grew(free, m, t, free - {frame}, Hang(m, t, k, i, frame), t[Child(k, i) := frame], {}, {Child(k, i)})
  {
    var t' := t[Child(k, i) := frame];
    assert t'[Child(k, i)] == frame && t'[k] == t[k];
  }

  lemma {:induction false} ImageCardinality(t: Tables, keys: set<Key>)
    requires keys <= t.Keys && Injective(t)
    ensures |FramesOf(t, keys)| == |keys|
  {
    if keys != {} {
      var k :| k in keys;
      var rest := keys - {k};
      ImageCardinality(t, rest);
      assert FramesOf(t, keys) == FramesOf(t, rest) + {t[k]};
      assert t[k] !in FramesOf(t, rest);
    }
  }

  ghost predicate Injective(t: Tables) {
    forall k {:trigger t[k]} :: k in t ==> Owner(t, t[k]) == k
  }

  ghost function FramesOf(t: Tables, keys: set<Key>): set<nat>
    requires keys <= t.Keys
  {
    set k | k in keys :: t[k]
  }

  lemma GrewPartition(free: set<nat>, m: Ram, t: Tables, free': set<nat>, m': Ram, t': Tables, taken: set<nat>,
                      keys: set<Key>)
    requires Grew(free, m, t, free', m', t', taken, keys)
    requires forall k {:trigger t[k]} :: k in t ==> t[k] !in free
    ensures free - free' - taken == FramesOf(t', t'.Keys - t.Keys)
    ensures free' <= free && taken <= free && free' !! taken
  {
    var added := t'.Keys - t.Keys;
    forall f | f in free - free' - taken ensures f in FramesOf(t', added) {
      assert f in t'.Values;
      var k :| k in t' && t'[k] == f;
      assert k in added;
    }
    forall f | f in FramesOf(t', added) ensures f in free - free' - taken {
      var k :| k in added && t'[k] == f;
    }
  }

  lemma PartitionCount(free: set<nat>, a: set<nat>, b: set<nat>)
    requires a <= free && b <= free && a !! b
    ensures |a| + |b| + |free - a - b| == |free|
  {
    assert free == a + b + (free - a - b);
    assert |a + b| == |a| + |b|;
    assert |a + b + (free - a - b)| == |a + b| + |free - a - b|;
  }

  /** Every frame that left the free set became a new table or was taken. */
  lemma GrewCount(free: set<nat>, m: Ram, t: Tables, free': set<nat>, m': Ram, t': Tables, taken: set<nat>,
                  keys: set<Key>)
    requires Grew(free, m, t, free', m', t', taken, keys) && Injective(t')
    requires forall k {:trigger t[k]} :: k in t ==> t[k] !in free
    ensures |free'| + |taken| + |t'.Keys - t.Keys| == |free|
  {
    ImageCardinality(t', t'.Keys - t.Keys);
    GrewPartition(free, m, t, free', m', t', taken, keys);
    PartitionCount(free, free', taken);
  }

  lemma LackingCount(before: set<Key>, after: set<Key>, keys: set<Key>, leaf: Key)
    requires before <= after && after - before <= keys && leaf in keys
    requires leaf in after ==> keys <= after
    ensures leaf in after ==> |after - before| == |keys - before|
    ensures leaf !in after ==> |after - before| < |keys - before|
  {
    if leaf in after {
      assert after - before == keys - before;
    } else {
      assert after - before <= keys - before - {leaf};
      SubsetCardinality(after - before, keys - before - {leaf});
    }
  }

  /** Mapping a page succeeds exactly when there are frames for the tables it lacks. */
  lemma MapSucceeds(free: set<nat>, m: Ram, t: Tables, free': set<nat>, m': Ram, t': Tables, root: nat, vpn: nat)
    requires Grew(free, m, t, free', m', t', {}, Path(vpn)) && Tree(m', root, t')
    requires forall k {:trigger t[k]} :: k in t ==> t[k] !in free
    requires KeyOf(vpn, 3) !in t' ==> free' == {}
    ensures KeyOf(vpn, 3) in t' <==> |Path(vpn) - t.Keys| <= |free|
  {
    var keys := Path(vpn);
    GrewCount(free, m, t, free', m', t', {}, keys);
    KeysGrow(free, m, t, free', m', t', {}, keys);
    if KeyOf(vpn, 3) in t' {
      PathPresent(m', root, t', vpn);
    }
    LackingCount(t.Keys, t'.Keys, keys, KeyOf(vpn, 3));
  }

  lemma KeysGrow(free: set<nat>, m: Ram, t: Tables, free': set<nat>, m': Ram, t': Tables, taken: set<nat>,
                 keys: set<Key>)
    requires Grew(free, m, t, free', m', t', taken, keys)
    ensures t.Keys <= t'.Keys && t'.Keys - t.Keys <= keys
  {
    forall k | k in t' && k !in t ensures k in keys {
      assert t'[k] in free;
    }
    forall k | k in t ensures k in t' {
      assert t[k] == t'[k];
    }
  }

  /** A page with a leaf table has all tables above it. */
  lemma PathPresent(m: Ram, root: nat, t: Tables, vpn: nat)
    requires Tree(m, root, t) && KeyOf(vpn, 3) in t
    ensures Path(vpn) <= t.Keys
  {
    if KeyOf(vpn, 2) !in t {
      MissingBelow(m, root, t, vpn, 2);
    }
    if KeyOf(vpn, 1) !in t {
      MissingBelow(m, root, t, vpn, 1);
    }
  }

  /** A zeroed frame for a table. */
  method AllocTablePage(pmm: Pmm.BitmapAllocator, mem: PhysMem) returns (r: Option<nat>)
    requires pmm.Valid() && pmm.Drift() == 0 && |mem.frames| == Pmm.MAX_PAGES
    modifies pmm.bitmap, pmm`freePages, pmm`free, mem
    ensures pmm.Valid() && pmm.Drift() == 0
    ensures r.None? <==> old(pmm.Free()) == {}
    ensures r.None? ==> pmm.Free() == {} && mem.frames == old(mem.frames)
    ensures r.Some? ==> r.value in old(pmm.Free()) && r.value < Pmm.MAX_PAGES
    ensures r.Some? ==> pmm.Free() == old(pmm.Free()) - {r.value}
    ensures r.Some? ==> mem.frames == old(mem.frames)[r.value := ZeroFrame()]
  {
    var phys := pmm.AllocPage();
    if phys.None? {
      return None;
    }
    var frame := phys.value / 4096;
    mem.frames := mem.frames[frame := ZeroFrame()];
    return Some(frame);
  }

  /** An empty address space costs one frame, its root, and fails only when there is none. */
  method NewAddressSpace(pmm: Pmm.BitmapAllocator, mem: PhysMem) returns (r: Option<AddressSpace>)
    requires pmm.Valid() && pmm.Drift() == 0 && |mem.frames| == Pmm.MAX_PAGES
    modifies pmm.bitmap, pmm`freePages, pmm`free, mem
    ensures r.None? <==> old(pmm.Free()) == {}
    ensures r.None? ==> pmm.Valid() && pmm.Free() == {} && mem.frames == old(mem.frames)
    ensures r.Some? ==>
              && fresh(r.value) && r.value.Valid() && r.value.pmm == pmm && r.value.mem == mem
              && r.value.Pages() == imap[]
              && r.value.root in old(pmm.Free()) && pmm.Free() == old(pmm.Free()) - {r.value.root}
              && mem.frames == old(mem.frames)[r.value.root := ZeroFrame()]
  {
    var root := AllocTablePage(pmm, mem);
    if root.None? {
      return None;
    }
    var aspace := new AddressSpace(pmm, mem, root.value);
    return Some(aspace);
  }

  class AddressSpace {
    const pmm: Pmm.BitmapAllocator
    const mem: PhysMem
    const root: nat
    ghost var tables: Tables
    ghost var pages: PageMap

    ghost predicate Valid()
      reads this, pmm, pmm.bitmap, mem
    {
      && pmm.Valid() && pmm.Drift() == 0
      && |mem.frames| == Pmm.MAX_PAGES
      && Tree(mem.frames, root, tables)
      && Represents(mem.frames, tables, pages)
      && forall k {:trigger tables[k]} :: k in tables ==> tables[k] !in pmm.Free()
    }

    /** The flat map: for each mapped page number, where it leads. */
    ghost function Pages(): PageMap
      reads this
    {
      pages
    }

    constructor (pmm: Pmm.BitmapAllocator, mem: PhysMem, root: nat)
      requires pmm.Valid() && pmm.Drift() == 0 && |mem.frames| == Pmm.MAX_PAGES
      requires root < Pmm.MAX_PAGES && root !in pmm.Free() && mem.frames[root] == ZeroFrame()
      ensures Valid() && this.pmm == pmm && this.mem == mem && this.root == root
      ensures tables == map[ROOT_KEY := root]
      ensures Pages() == imap[]
    {
      this.pmm := pmm;
      this.mem := mem;
      this.root := root;
      tables := map[ROOT_KEY := root];
      pages := imap[];
      new;
      forall i: nat | i < ENTRIES_PER_TABLE
        ensures Linked(mem.frames, tables, ROOT_KEY, i)
      {
        ZeroFrameInvalid(i);
      }
    }

    /** A zeroed frame for data. */
    method TakeFrame(ghost keys: set<Key>) returns (r: Option<nat>)
      requires Valid()
      modifies pmm.bitmap, pmm`freePages, pmm`free, mem
      ensures Valid() && Pages() == old(Pages())
      ensures r.None? <==> old(pmm.Free()) == {}
      ensures r.None? ==> pmm.Free() == {} && mem.frames == old(mem.frames)
      ensures r.Some? ==> r.value < Pmm.MAX_PAGES && r.value !in tables.Values
      ensures r.Some? ==>
                Grew(old(pmm.Free()), old(mem.frames), tables, pmm.Free(), mem.frames, tables, {r.value}, keys)
      ensures r.Some? ==> mem.frames[r.value] == ZeroFrame()
    {
      r := AllocTablePage(pmm, mem);
      if r.Some? {
        WriteData(old(mem.frames), root, tables, r.value, ZeroFrame());
      }
    }

    /** Gives a data frame back to the allocator. */
    method ReleaseFrame(frame: nat)
      requires Valid() && frame < Pmm.MAX_PAGES && frame !in pmm.Free() && frame !in tables.Values
      modifies pmm.bitmap, pmm`freePages, pmm`free
      ensures Valid() && Pages() == old(Pages())
      ensures pmm.Free() == old(pmm.Free()) + {frame}
    {
      pmm.FreePage(frame * 4096);
    }

    /** Stores the content of a frame that is not a table. */
    method FillFrame(frame: nat, content: Frame)
      requires Valid() && frame < Pmm.MAX_PAGES && frame !in tables.Values
      modifies mem
      ensures Valid() && Pages() == old(Pages())
      ensures mem.frames == old(mem.frames)[frame := content]
    {
      WriteData(mem.frames, root, tables, frame, content);
      mem.frames := mem.frames[frame := content];
    }

    /** One missing step of the walk: a fresh table linked into `table` at `index`. */
    method LinkNewTable(table: nat, index: nat, ghost key: Key) returns (r: Option<nat>)
      requires Valid() && index < ENTRIES_PER_TABLE
      requires key in tables && tables[key] == table && key.level < 3 && Child(key, index) !in tables
      modifies this, pmm.bitmap, pmm`freePages, pmm`free, mem
      ensures Valid() && Pages() == old(Pages())
      ensures Grew(old(pmm.Free()), old(mem.frames), old(tables), pmm.Free(), mem.frames, tables, {},
                   {Child(key, index)})
      ensures r.None? ==> pmm.Free() == {} && Child(key, index) !in tables
      ensures r.Some? ==> Child(key, index) in tables && tables[Child(key, index)] == r.value && r.value != root
    {
      var newTable := AllocTablePage(pmm, mem);
      if newTable.None? {
        return None;
      }
      var frame := newTable.value;
      assert frame != root;
      AddTable(old(mem.frames), root, tables, key, index, frame);
      GrewByTable(old(pmm.Free()), old(mem.frames), tables, root, key, index, frame);
      mem.frames := mem.frames[table := WithEntry(mem.frames[table], index, TableEntry(frame))];
      tables := tables[Child(key, index) := frame];
      return Some(frame);
    }

    /** One step of the walk down to page `vpn`: follows the entry of `table`, or makes a table for it. */
    method StepCreate(vpn: nat, level: nat, table: nat) returns (r: Option<nat>)
      requires Valid() && level < 3 && KeyOf(vpn, level) in tables && tables[KeyOf(vpn, level)] == table
      modifies this, pmm.bitmap, pmm`freePages, pmm`free, mem
      ensures Valid() && Pages() == old(Pages())
      ensures Grew(old(pmm.Free()), old(mem.frames), old(tables), pmm.Free(), mem.frames, tables, {}, Path(vpn))
      ensures r.Some? ==> KeyOf(vpn, level + 1) in tables && tables[KeyOf(vpn, level + 1)] == r.value
      ensures r.None? ==> pmm.Free() == {} && KeyOf(vpn, level + 1) !in tables
    {
      var index := Index(vpn, level);
      assert Linked(mem.frames, tables, KeyOf(vpn, level), index);
      KeyOfChild(vpn, level);
      assert KeyOf(vpn, level + 1) in Path(vpn);
      var entry := EntryAt(mem.frames[table], index);
      if !IsValid(entry) {
        r := LinkNewTable(table, index, KeyOf(vpn, level));
      } else {
        r := Some(FrameOf(entry));
      }
    }

    /** The upper three levels of the walk, with every missing table created. */
    method WalkCreate(vpn: nat) returns (r: Option<nat>)
      requires Valid() && vpn < VPN_LIMIT
      modifies this, pmm.bitmap, pmm`freePages, pmm`free, mem
      ensures Valid() && Pages() == old(Pages())
      ensures Grew(old(pmm.Free()), old(mem.frames), old(tables), pmm.Free(), mem.frames, tables, {}, Path(vpn))
      ensures r.Some? ==> KeyOf(vpn, 3) in tables && tables[KeyOf(vpn, 3)] == r.value
      ensures r.None? ==> pmm.Free() == {} && KeyOf(vpn, 3) !in tables
    {
      var table := root;
      RootKeyOf(vpn);
      for level := 0 to 3
        invariant Valid() && Pages() == old(Pages())
        invariant KeyOf(vpn, level) in tables && tables[KeyOf(vpn, level)] == table
        invariant Grew(old(pmm.Free()), old(mem.frames), old(tables), pmm.Free(), mem.frames, tables, {}, Path(vpn))
      {
        ghost var free, m, t := pmm.Free(), mem.frames, tables;
        var next := StepCreate(vpn, level, table);
        GrewThen(old(pmm.Free()), old(mem.frames), old(tables), free, m, t, {}, pmm.Free(), mem.frames, tables,
                 Path(vpn));
        if next.None? {
          MissingBelow(mem.frames, root, tables, vpn, level + 1);
          return None;
        }
        table := next.value;
      }
      return Some(table);
    }

    /** Walks to page `vpn`, creating tables, and stores `entry` there. */
    method MapEntry(vpn: nat, entry: nat) returns (ok: bool)
      requires Valid() && vpn < VPN_LIMIT && entry < U64_LIMIT && IsValid(entry)
      modifies this, pmm.bitmap, pmm`freePages, pmm`free, mem
      ensures Valid()
      ensures Pages() == if ok then old(Pages())[vpn := Decode(entry)] else old(Pages())
      ensures Grew(old(pmm.Free()), old(mem.frames), old(tables), pmm.Free(), mem.frames, tables, {}, Path(vpn))
      ensures ok <==> KeyOf(vpn, 3) in tables
      ensures !ok ==> pmm.Free() == {} && vpn !in Pages()
    {
      var leaf := WalkCreate(vpn);
      if leaf.None? {
        assert Flat(mem.frames, tables, vpn) == None;
        return false;
      }
      WriteLeaf(vpn, leaf.value, entry);
      return true;
    }

    /**
     * Maps page `vpn` (`virt >> 12`) to `frame` (`phys >> 12`). On success exactly that page's
     * translation changes; on failure none does and the allocator is exhausted. Tables created on
     * the way stay in either case.
     */
    method MapPage(vpn: nat, frame: nat, attr: PageAttr) returns (ok: bool)
      requires Valid() && vpn < VPN_LIMIT && frame < FRAME_LIMIT
      modifies this, pmm.bitmap, pmm`freePages, pmm`free, mem
      ensures Valid()
      ensures Pages() == if ok then old(Pages())[vpn := Granted(frame, attr)] else old(Pages())
      ensures Grew(old(pmm.Free()), old(mem.frames), old(tables), pmm.Free(), mem.frames, tables, {}, Path(vpn))
      ensures ok <==> KeyOf(vpn, 3) in tables
      ensures !ok ==> pmm.Free() == {} && vpn !in Pages()
    {
      PageEntryFields(frame, attr);
      ok := MapEntry(vpn, PageEntry(frame, attr));
    }

    /** Stores a leaf entry. */
    method WriteLeaf(vpn: nat, table: nat, entry: nat)
      requires Valid() && KeyOf(vpn, 3) in tables && tables[KeyOf(vpn, 3)] == table && entry < U64_LIMIT
      modifies mem, `pages
      ensures Valid()
      ensures Pages() == if IsValid(entry) then old(Pages())[vpn := Decode(entry)] else old(Pages()) - {vpn}
      ensures forall f :: 0 <= f < |mem.frames| && f != table ==> mem.frames[f] == old(mem.frames)[f]
    {
      SetLeaf(mem.frames, root, tables, vpn, entry);
      mem.frames := mem.frames[table := WithEntry(mem.frames[table], Index(vpn, 3), entry)];
      pages := if IsValid(entry) then pages[vpn := Decode(entry)] else pages - {vpn};
    }

    /** The upper three levels of the walk, stopping at a missing table. */
    method WalkTables(vpn: nat) returns (r: Option<nat>)
      requires Valid() && vpn < VPN_LIMIT
      ensures r.Some? <==> KeyOf(vpn, 3) in tables
      ensures r.Some? ==> r.value == tables[KeyOf(vpn, 3)]
    {
      var table := root;
      RootKeyOf(vpn);
      for level := 0 to 3
        invariant KeyOf(vpn, level) in tables && tables[KeyOf(vpn, level)] == table
      {
        assert Linked(mem.frames, tables, KeyOf(vpn, level), Index(vpn, level));
        KeyOfChild(vpn, level);
        var entry := EntryAt(mem.frames[table], Index(vpn, level));
        if !IsValid(entry) {
          MissingBelow(mem.frames, root, tables, vpn, level + 1);
          return None;
        }
        table := FrameOf(entry);
      }
      return Some(table);
    }

    /** Removes one translation and returns the frame it led to. */
    method UnmapPage(vpn: nat) returns (r: Option<nat>)
      requires Valid() && vpn < VPN_LIMIT
      modifies mem, `pages
      ensures Valid()
      ensures Pages() == old(Pages()) - {vpn}
      ensures r == if vpn in old(Pages()) then Some(old(Pages())[vpn].frame) else None
      ensures r.None? ==> mem.frames == old(mem.frames)
      ensures forall f :: 0 <= f < |mem.frames| && f !in tables.Values ==> mem.frames[f] == old(mem.frames)[f]
    {
      assert Represents(mem.frames, tables, pages);
      ghost var flat := Flat(mem.frames, tables, vpn);
      var leaf := WalkTables(vpn);
      if leaf.None? {
        return None;
      }
      var entry := EntryAt(mem.frames[leaf.value], Index(vpn, 3));
      if !IsValid(entry) {
        return None;
      }
      WriteLeaf(vpn, leaf.value, 0);
      return Some(FrameOf(entry));
    }

    /** The frame of a user page. */
    method TranslatePage(vpn: nat) returns (r: Option<nat>)
      requires Valid() && vpn < VPN_LIMIT
      ensures r == if vpn in Pages() then Some(Pages()[vpn].frame) else None
      ensures r.Some? ==> r.value < FRAME_LIMIT
    {
      assert Represents(mem.frames, tables, pages);
      ghost var flat := Flat(mem.frames, tables, vpn);
      var leaf := WalkTables(vpn);
      if leaf.None? {
        return None;
      }
      var entry := EntryAt(mem.frames[leaf.value], Index(vpn, 3));
      if !IsValid(entry) {
        return None;
      }
      return Some(FrameOf(entry));
    }

    /** The physical address of a user address. */
    method Translate(virt: nat) returns (r: Option<nat>)
      requires Valid() && virt / 4096 < VPN_LIMIT
      ensures r == if virt / 4096 in Pages() then Some(Pages()[virt / 4096].frame * 4096 + virt % 4096) else None
    {
      var frame := TranslatePage(virt / 4096);
      if frame.None? {
        return None;
      }
      return Some(frame.value * 4096 + virt % 4096);
    }
  }
}

/**
 * The AArch64 four-level translation tables (kernel/src/arch/aarch64/paging.rs) as they lie in
 * physical memory, and the flat map from page numbers to entries that they represent.
 */
module PageTable {
  import opened Arithmetic
  import opened Common
  import opened LittleEndian

  const ENTRIES_PER_TABLE := 512
  const FRAME_LIMIT := 0x10_0000_0000
  const VPN_LIMIT := 0x10_0000_0000
  const VA_LIMIT := 0x1_0000_0000_0000

  // Descriptor formats.

  datatype PageAttr = PageAttr(readable: bool, writable: bool, executable: bool, user: bool, device: bool)

  const USER_RW := PageAttr(true, true, false, true, false)

  const HIGH_UNIT := 0x20_0000_0000_0000 // bit 53, PXN; bit 54 is UXN

  /** Attribute bits 0 to 11. The fields are disjoint, so the source's `|` is a sum. */
  function LowBits(a: PageAttr): (r: nat)
    ensures r + 0x403 < 4096
  {
    0x300
    + (if a.device then 0x4 else 0)
    + (if a.user then 0x800 + (if a.writable then 0x40 else 0xC0) else if a.writable then 0 else 0x80)
  }

  /** Attribute bits 53 (PXN) and 54 (UXN). */
  function HighBits(a: PageAttr): (r: nat)
    ensures r < 4
  {
    if a.user then 1 + (if a.executable then 0 else 2) else 2 + (if a.executable then 0 else 1)
  }

  function ToPte(a: PageAttr): nat {
    LowBits(a) + HighBits(a) * HIGH_UNIT
  }

  function TableEntry(frame: nat): nat {
    frame * 4096 + 0x3
  }

  function PageEntry(frame: nat, a: PageAttr): nat {
    frame * 4096 + ToPte(a) + 0x403
  }

  predicate IsValid(e: nat) {
    e % 2 == 1
  }

  /** Bits 12 to 47 of an entry. */
  function FrameOf(e: nat): (f: nat)
    ensures f < FRAME_LIMIT
  {
    e / 4096 % FRAME_LIMIT
  }

  /** What the walk reads back from an entry; `readable` has no bit of its own, so every mapped page has it. */
  function AttrOf(e: nat): PageAttr {
    var low := e % 4096;
    var high := e / HIGH_UNIT % 4;
    var user := low / 0x800 == 1;
    PageAttr(true, low / 0x80 % 2 == 0, if user then high / 2 == 0 else high % 2 == 0, user, low / 4 % 2 == 1)
  }

  /** A translation: the frame a page leads to and the access it grants. */
  datatype Mapping = Mapping(frame: nat, attr: PageAttr)

  function Decode(e: nat): Mapping {
    Mapping(FrameOf(e), AttrOf(e))
  }

  /** The mapping a request for `frame` and `a` results in. */
  function Granted(frame: nat, a: PageAttr): Mapping {
    Mapping(frame, a.(readable := true))
  }

  lemma Fields(low: nat, frame: nat, high: nat)
    requires low < 4096 && frame < FRAME_LIMIT && high < 4
    ensures var e := frame * 4096 + low + high * HIGH_UNIT;
            && e < U64_LIMIT && e % 4096 == low && e / HIGH_UNIT == high
            && e / 4096 % FRAME_LIMIT == frame && e % 2 == low % 2
  {
    var e := frame * 4096 + low + high * HIGH_UNIT;
    var upper := frame + high * 0x200_0000_0000;
    assert e == upper * 4096 + low;
    LowField(e, upper, low);
    DivUnique(upper, FRAME_LIMIT, 32 * high, frame);
    DivUnique(e, HIGH_UNIT, high, frame * 4096 + low);
  }

  lemma LowField(e: nat, upper: nat, low: nat)
    requires e == upper * 4096 + low && low < 4096
    ensures e / 4096 == upper && e % 4096 == low && e % 2 == low % 2
  {
    DivUnique(e, 4096, upper, low);
    DivUnique(e, 2, upper * 2048 + low / 2, low % 2);
  }

  /** A page entry is a valid 64-bit descriptor from which frame and attributes are recovered. */
  lemma PageEntryFields(frame: nat, a: PageAttr)
    requires frame < FRAME_LIMIT
    ensures PageEntry(frame, a) < U64_LIMIT
    ensures IsValid(PageEntry(frame, a))
    ensures Decode(PageEntry(frame, a)) == Granted(frame, a)
  {
    Fields(LowBits(a) + 0x403, frame, HighBits(a));
  }

  // What the hardware lets user mode do with a page: access bits 6 and 7, and bit 54 (UXN).

  predicate UserReads(e: nat) { e % 4096 / 0x40 % 2 == 1 }

  predicate UserWrites(e: nat) { UserReads(e) && e % 4096 / 0x80 % 2 == 0 }

  predicate UserExecutes(e: nat) { e / HIGH_UNIT / 2 % 2 == 0 }

  /** User mode may write and execute exactly as asked, but may read every user page, asked or not. */
  lemma UserAccess(frame: nat, a: PageAttr)
    requires frame < FRAME_LIMIT
    ensures UserReads(PageEntry(frame, a)) <==> a.user
    ensures UserWrites(PageEntry(frame, a)) <==> a.user && a.writable
    ensures UserExecutes(PageEntry(frame, a)) <==> a.user && a.executable
  {
    Fields(LowBits(a) + 0x403, frame, HighBits(a));
  }

  lemma TableEntryFields(frame: nat)
    requires frame < FRAME_LIMIT
    ensures TableEntry(frame) < U64_LIMIT
    ensures IsValid(TableEntry(frame)) && FrameOf(TableEntry(frame)) == frame
  {
  }

  // Entries inside a frame.

  type Frame = s: seq<byte> | |s| == 4096 witness seq(4096, _ => 0)

  function ZeroFrame(): (f: Frame) {
    seq(4096, _ => 0)
  }

  function EntryAt(f: Frame, i: nat): nat
    requires i < ENTRIES_PER_TABLE
  {
    FromLe(f[8 * i..8 * i + 8])
  }

  function WithEntry(f: Frame, i: nat, e: nat): (r: Frame)
    requires i < ENTRIES_PER_TABLE
  {
    f[..8 * i] + ToLe(e, 8) + f[8 * i + 8..]
  }

  lemma EntryReadBack(f: Frame, i: nat, e: nat, j: nat)
    requires i < ENTRIES_PER_TABLE && j < ENTRIES_PER_TABLE && e < U64_LIMIT
    ensures EntryAt(WithEntry(f, i, e), j) == if i == j then e else EntryAt(f, j)
  {
    var g := WithEntry(f, i, e);
    if i == j {
      assert g[8 * i..8 * i + 8] == ToLe(e, 8);
      U64RoundTrip(e);
    } else {
      assert g[8 * j..8 * j + 8] == f[8 * j..8 * j + 8];
    }
  }

  lemma ZeroFrameInvalid(i: nat)
    requires i < ENTRIES_PER_TABLE
    ensures !IsValid(EntryAt(ZeroFrame(), i))
  {
    ZerosAreZero(ZeroFrame()[8 * i..8 * i + 8]);
  }

  // The tree.

  /** A table is named by its level and the address prefix it serves. */
  datatype Key = Key(level: nat, prefix: nat)

  type Ram = seq<Frame>
  type Tables = map<Key, nat>

  const ROOT_KEY := Key(0, 0)

  /** `vpn >> 9 * n` */
  function Shift(vpn: nat, n: nat): nat {
    if n == 0 then vpn else Shift(vpn, n - 1) / 512
  }

  /** The table of page `vpn` at `level`. */
  function KeyOf(vpn: nat, level: nat): Key
    requires level <= 3
  {
    Key(level, Shift(vpn, 4 - level))
  }

  /** `(virt >> (39 - 9 * level)) & 0x1FF`, on the page number. */
  function Index(vpn: nat, level: nat): (i: nat)
    requires level <= 3
    ensures i < ENTRIES_PER_TABLE
  {
    Shift(vpn, 3 - level) % 512
  }

  function Parent(k: Key): Key
    requires k.level > 0
  {
    Key(k.level - 1, k.prefix / 512)
  }

  function Child(k: Key, i: nat): Key {
    Key(k.level + 1, k.prefix * 512 + i)
  }

  lemma KeyOfChild(vpn: nat, level: nat)
    requires level < 3
    ensures KeyOf(vpn, level + 1) == Child(KeyOf(vpn, level), Index(vpn, level))
    ensures Parent(KeyOf(vpn, level + 1)) == KeyOf(vpn, level)
  {
  }

  lemma RootKeyOf(vpn: nat)
    requires vpn < VPN_LIMIT
    ensures KeyOf(vpn, 0) == ROOT_KEY
  {
    assert Shift(vpn, 1) < 0x800_0000;
    assert Shift(vpn, 2) < 0x4_0000;
    assert Shift(vpn, 3) < 0x200;
  }

  lemma LeafPosition(vpn: nat)
    ensures vpn == KeyOf(vpn, 3).prefix * 512 + Index(vpn, 3)
  {
    assert Shift(vpn, 0) == vpn;
    assert Shift(vpn, 1) == vpn / 512;
  }

  /** The table kept in `frame`. */
  ghost function Owner(t: Tables, frame: nat): Key {
    if frame in t.Values then (var k :| k in t && t[k] == frame; k) else ROOT_KEY
  }

  ghost predicate Linked(m: Ram, t: Tables, k: Key, i: nat)
    requires k in t && t[k] < |m| && i < ENTRIES_PER_TABLE
  {
    var e := EntryAt(m[t[k]], i);
    && (IsValid(e) <==> Child(k, i) in t)
    && (IsValid(e) ==> FrameOf(e) == t[Child(k, i)])
  }

  /**
   * `t` names every table of the tree rooted at `root`: no frame is shared between two tables,
   * and the entries of the upper three levels point at exactly the tables in `t`.
   */
  ghost predicate Tree(m: Ram, root: nat, t: Tables) {
    && ROOT_KEY in t && t[ROOT_KEY] == root
    && (forall k {:trigger t[k]} :: k in t ==> k.level <= 3 && t[k] < |m| && (k.level == 0 ==> k == ROOT_KEY))
    && (forall k {:trigger Parent(k)} :: k in t && k.level > 0 ==> Parent(k) in t)
    && (forall k {:trigger t[k]} :: k in t ==> Owner(t, t[k]) == k)
    && (forall k, i: nat {:trigger Linked(m, t, k, i)} :: k in t && k.level < 3 && i < ENTRIES_PER_TABLE ==>
         Linked(m, t, k, i))
  }

  /** The flat map the tree stands for: the valid leaf entry of page `vpn`, if any. */
  ghost function Flat(m: Ram, t: Tables, vpn: nat): Option<nat>
    requires forall k {:trigger t[k]} :: k in t ==> t[k] < |m|
  {
    var k := KeyOf(vpn, 3);
    if k in t && IsValid(EntryAt(m[t[k]], Index(vpn, 3))) then Some(EntryAt(m[t[k]], Index(vpn, 3))) else None
  }

  type PageMap = imap<nat, Mapping>

  /** `p` is the flat map the tree stands for, with its entries decoded. */
  ghost predicate Represents(m: Ram, t: Tables, p: PageMap)
    requires forall k {:trigger t[k]} :: k in t ==> t[k] < |m|
  {
    forall v: nat {:trigger Flat(m, t, v)} ::
      (v in p <==> Flat(m, t, v).Some?) && (v in p ==> p[v] == Decode(Flat(m, t, v).value))
  }

  /** Below a missing table there is no table. */
  lemma {:induction false} MissingBelow(m: Ram, root: nat, t: Tables, vpn: nat, level: nat)
    requires Tree(m, root, t)
    requires level <= 3 && KeyOf(vpn, level) !in t
    ensures KeyOf(vpn, 3) !in t
    decreases 3 - level
  {
    if level < 3 {
      KeyOfChild(vpn, level);
      MissingBelow(m, root, t, vpn, level + 1);
    }
  }

  // The three kinds of write, and what each does to the flat map.

  /** Memory after hanging `frame`, zeroed, under entry `i` of table `k`. */
  ghost function Hang(m: Ram, t: Tables, k: Key, i: nat, frame: nat): Ram
    requires k in t && t[k] < |m| && frame < |m| && i < ENTRIES_PER_TABLE
  {
    m[frame := ZeroFrame()][t[k] := WithEntry(m[t[k]], i, TableEntry(frame))]
  }

  lemma HangEntries(m: Ram, root: nat, t: Tables, k: Key, i: nat, frame: nat, l: Key, j: nat)
    requires Tree(m, root, t)
    requires k in t && i < ENTRIES_PER_TABLE && frame < |m| <= FRAME_LIMIT && frame !in t.Values
    requires l in t && j < ENTRIES_PER_TABLE
    ensures EntryAt(Hang(m, t, k, i, frame)[t[l]], j) ==
              if l == k && j == i then TableEntry(frame) else EntryAt(m[t[l]], j)
    ensures !IsValid(EntryAt(Hang(m, t, k, i, frame)[frame], j))
  {
    TableEntryFields(frame);
    ZeroFrameInvalid(j);
    EntryReadBack(m[t[k]], i, TableEntry(frame), j);
    assert frame != t[k] && frame != t[l];
  }

  lemma HangLinks(m: Ram, root: nat, t: Tables, k: Key, i: nat, frame: nat, l: Key, j: nat)
    requires Tree(m, root, t)
    requires k in t && k.level < 3 && i < ENTRIES_PER_TABLE && Child(k, i) !in t
    requires frame < |m| <= FRAME_LIMIT && frame !in t.Values
    requires l in t[Child(k, i) := frame] && l.level < 3 && j < ENTRIES_PER_TABLE
    ensures Linked(Hang(m, t, k, i, frame), t[Child(k, i) := frame], l, j)
  {
    TableEntryFields(frame);
    ChildInjective(l, j, k, i);
    if l == Child(k, i) {
      HangEntries(m, root, t, k, i, frame, k, j);
      NoChildOfMissing(m, root, t, l, j);
    } else {
      HangEntries(m, root, t, k, i, frame, l, j);
      assert Linked(m, t, l, j);
    }
  }

  lemma HangTree(m: Ram, root: nat, t: Tables, k: Key, i: nat, frame: nat)
    requires Tree(m, root, t)
    requires k in t && k.level < 3 && i < ENTRIES_PER_TABLE && Child(k, i) !in t
    requires frame < |m| <= FRAME_LIMIT && frame !in t.Values
    ensures Tree(Hang(m, t, k, i, frame), root, t[Child(k, i) := frame])
  {
    var c := Child(k, i);
    var m' := Hang(m, t, k, i, frame);
    var t' := t[c := frame];
    assert Parent(c) == k;
    forall l, j: nat | l in t' && l.level < 3 && j < ENTRIES_PER_TABLE
      ensures Linked(m', t', l, j)
    {
      HangLinks(m, root, t, k, i, frame, l, j);
    }
  }

  /** Hanging a zeroed frame under an invalid upper-level entry adds a table and no translation. */
  lemma AddTable(m: Ram, root: nat, t: Tables, k: Key, i: nat, frame: nat)
    requires Tree(m, root, t)
    requires k in t && k.level < 3 && i < ENTRIES_PER_TABLE && Child(k, i) !in t
    requires frame < |m| <= FRAME_LIMIT && frame !in t.Values
    ensures Tree(Hang(m, t, k, i, frame), root, t[Child(k, i) := frame])
    ensures forall p: PageMap :: Represents(m, t, p) ==> Represents(Hang(m, t, k, i, frame), t[Child(k, i) := frame], p)
  {
    HangTree(m, root, t, k, i, frame);
    var m' := Hang(m, t, k, i, frame);
    var t' := t[Child(k, i) := frame];
    forall v: nat ensures Flat(m', t', v) == Flat(m, t, v) {
      var l := KeyOf(v, 3);
      HangEntries(m, root, t, k, i, frame, if l in t then l else k, Index(v, 3));
      assert l in t' ==> t'[l] == if l in t then t[l] else frame;
    }
  }

  lemma ChildInjective(k: Key, i: nat, l: Key, j: nat)
    requires i < 512 && j < 512
    ensures Child(k, i) == Child(l, j) <==> k == l && i == j
  {
  }

  lemma NoChildOfMissing(m: Ram, root: nat, t: Tables, k: Key, i: nat)
    requires Tree(m, root, t) && k !in t && i < 512
    ensures Child(k, i) !in t
  {
    assert Parent(Child(k, i)) == k;
  }

  /** Writing a leaf entry changes the translation of that page and of no other. */
  lemma SetLeaf(m: Ram, root: nat, t: Tables, vpn: nat, e: nat)
    requires Tree(m, root, t) && KeyOf(vpn, 3) in t && e < U64_LIMIT
    ensures var f := t[KeyOf(vpn, 3)];
            var m' := m[f := WithEntry(m[f], Index(vpn, 3), e)];
            && Tree(m', root, t)
            && forall p: PageMap :: Represents(m, t, p) ==>
                 Represents(m', t, if IsValid(e) then p[vpn := Decode(e)] else p - {vpn})
  {
    var k := KeyOf(vpn, 3);
    var f := t[k];
    var m' := m[f := WithEntry(m[f], Index(vpn, 3), e)];
    forall l, i: nat | l in t && l.level < 3 && i < ENTRIES_PER_TABLE
      ensures Linked(m', t, l, i)
    {
      assert t[l] != f;
      assert Linked(m, t, l, i);
    }
    forall v: nat ensures Flat(m', t, v) == if v != vpn then Flat(m, t, v) else if IsValid(e) then Some(e) else None {
      LeafEntry(m, root, t, vpn, e, v);
    }
    forall p: PageMap | Represents(m, t, p)
      ensures Represents(m', t, if IsValid(e) then p[vpn := Decode(e)] else p - {vpn})
    {
      PagesChange(m, t, m', vpn, if IsValid(e) then Some(e) else None, p);
    }
  }

  lemma PagesChange(m: Ram, t: Tables, m': Ram, vpn: nat, o: Option<nat>, p: PageMap)
    requires |m'| == |m| && forall k {:trigger t[k]} :: k in t ==> t[k] < |m|
    requires forall v: nat {:trigger Flat(m', t, v)} :: Flat(m', t, v) == if v == vpn then o else Flat(m, t, v)
    requires Represents(m, t, p)
    ensures Represents(m', t, if o.Some? then p[vpn := Decode(o.value)] else p - {vpn})
  {
    var p' := if o.Some? then p[vpn := Decode(o.value)] else p - {vpn};
    forall v: nat
      ensures (v in p' <==> Flat(m', t, v).Some?) && (v in p' ==> p'[v] == Decode(Flat(m', t, v).value))
    {
      assert Flat(m', t, v) == if v == vpn then o else Flat(m, t, v);
    }
  }

  lemma LeafEntry(m: Ram, root: nat, t: Tables, vpn: nat, e: nat, v: nat)
    requires Tree(m, root, t) && KeyOf(vpn, 3) in t && e < U64_LIMIT
    ensures var f := t[KeyOf(vpn, 3)];
            Flat(m[f := WithEntry(m[f], Index(vpn, 3), e)], t, v) ==
            if v != vpn then Flat(m, t, v) else if IsValid(e) then Some(e) else None
  {
    LeafPosition(v);
    LeafPosition(vpn);
    EntryReadBack(m[t[KeyOf(vpn, 3)]], Index(vpn, 3), e, Index(v, 3));
  }

  /** Writing a frame that is not a table changes no translation. */
  lemma WriteData(m: Ram, root: nat, t: Tables, frame: nat, content: Frame)
    requires Tree(m, root, t) && frame < |m| && frame !in t.Values
    ensures Tree(m[frame := content], root, t)
    ensures forall p: PageMap :: Represents(m, t, p) ==> Represents(m[frame := content], t, p)
  {
    var m' := m[frame := content];
    forall k, i: nat | k in t && k.level < 3 && i < ENTRIES_PER_TABLE
      ensures Linked(m', t, k, i)
    {
      assert Linked(m, t, k, i);
    }
    assert forall v: nat :: Flat(m', t, v) == Flat(m, t, v);
  }
}

/** The page map: a radix tree of page tables in physical frames, built as pages are mapped. It is
    proved to act as a plain map from pages to entries. */
module Paging {
  import opened PageTables

  type Table = seq<bv64>

  /** A physical frame, by its address. */
  datatype Frame = Frame(address: bv64)

  function ClearedTable(): (t: Table)
    ensures |t| == ENTRIES && forall i :: 0 <= i < |t| ==> t[i] == 0
  {
    seq(ENTRIES, _ => 0)
  }

  /** The frame of a table and the entry that leads to it. */
  datatype Node = Node(frame: Frame, entry: bv64)

  function NewNode(frame: Frame): Node { Node(frame, NewEntry(frame.address, NEW_PAGE_FLAGS)) }

  predicate PageAligned(frame: Frame) { GetAddress(frame.address) == frame.address }

  /** The tables hang together: every table but the root is entered in exactly one slot, that of
      its parent, and every other slot above the leaf tables is empty. */
  ghost predicate Linked(frames: map<Frame, Table>, dir: map<Path, Node>, levels: nat)
  {
    && Root in dir
    && (forall p :: p in dir ==> Depth(p) < levels && dir[p].frame in frames && |frames[dir[p].frame]| == ENTRIES)
    && (forall p, q :: p in dir && q in dir && dir[p].frame == dir[q].frame ==> p == q)
    && (forall p, i: nat {:trigger Step(p, i)} :: Step(p, i) in dir ==>
          p in dir && i < ENTRIES && frames[dir[p].frame][i] == dir[Step(p, i)].entry)
    && (forall p, i: nat {:trigger Step(p, i)} ::
          p in dir && i < ENTRIES && Depth(p) + 1 < levels && Step(p, i) !in dir ==> frames[dir[p].frame][i] == 0)
  }

  /** The entries are those of page-aligned tables. */
  ghost predicate Nodes(dir: map<Path, Node>)
  {
    forall p :: p in dir ==> PageAligned(dir[p].frame) && dir[p] == NewNode(dir[p].frame)
  }

  function Lookup(plain: map<Path, bv64>, page: Path): bv64
  {
    if page in plain then plain[page] else 0
  }

  /** The leaf tables hold what the plain map says; what was never mapped is empty. */
  ghost predicate Holds(frames: map<Frame, Table>, dir: map<Path, Node>, plain: map<Path, bv64>, levels: nat)
    requires Linked(frames, dir, levels)
  {
    && (forall p, i: nat {:trigger Step(p, i)} :: Step(p, i) in plain ==>
          p in dir && i < ENTRIES && Depth(p) + 1 == levels)
    && (forall p, i: nat {:trigger Step(p, i)} ::
          p in dir && i < ENTRIES && Depth(p) + 1 == levels ==> frames[dir[p].frame][i] == Lookup(plain, Step(p, i)))
  }

  ghost predicate InOrder(frames: map<Frame, Table>, dir: map<Path, Node>, plain: map<Path, bv64>, levels: nat)
  {
    Linked(frames, dir, levels) && Holds(frames, dir, plain, levels)
  }

  /** The frames still to be handed out: page aligned, different, none of them in use as a table. */
  ghost predicate Unused(dir: map<Path, Node>, pool: seq<Frame>)
  {
    && (forall j :: 0 <= j < |pool| ==> PageAligned(pool[j]) && pool[j] != Frame(0))
    && (forall j, k :: 0 <= j < k < |pool| ==> pool[j] != pool[k])
    && (forall j, p :: 0 <= j < |pool| && p in dir ==> dir[p].frame != pool[j])
  }

  ghost predicate Fresh(dir: map<Path, Node>, f: Frame)
  {
    forall p :: p in dir ==> dir[p].frame != f
  }

  /** Every table of `dir` has its own frame, of the right size. */
  ghost predicate Separate(frames: map<Frame, Table>, dir: map<Path, Node>)
  {
    && (forall q :: q in dir ==> dir[q].frame in frames && |frames[dir[q].frame]| == ENTRIES)
    && (forall q, r :: q in dir && r in dir && dir[q].frame == dir[r].frame ==> q == r)
  }

  /** Among the tables of `dir`, only slot `i` of table `p` has changed. */
  ghost predicate SlotWritten(frames: map<Frame, Table>, frames': map<Frame, Table>, dir: map<Path, Node>, p: Path,
                              i: nat, entry: bv64)
    requires Separate(frames, dir) && p in dir && i < ENTRIES
  {
    && (forall q :: q in dir && q != p ==> dir[q].frame in frames' && frames'[dir[q].frame] == frames[dir[q].frame])
    && dir[p].frame in frames' && frames'[dir[p].frame] == frames[dir[p].frame][i := entry]
  }

  /** All slots but the new link are as before, and the new table is empty. */
  lemma TableEntered(frames: map<Frame, Table>, dir: map<Path, Node>, p: Path, i: nat,
                     cleared: map<Frame, Table>, frames': map<Frame, Table>, node: Node)
    requires p in dir && i < ENTRIES && Fresh(dir, node.frame) && Separate(frames, dir)
    requires cleared == frames[node.frame := ClearedTable()] && dir[p].frame in cleared && |cleared[dir[p].frame]| == ENTRIES
    requires frames' == cleared[dir[p].frame := cleared[dir[p].frame][i := node.entry]]
    ensures SlotWritten(frames, frames', dir, p, i, node.entry)
    ensures node.frame in frames' && frames'[node.frame] == ClearedTable()
  {
  }

  lemma AddSeparate(frames: map<Frame, Table>, dir: map<Path, Node>, p: Path, i: nat,
                    frames': map<Frame, Table>, node: Node, dir': map<Path, Node>)
    requires Separate(frames, dir) && Fresh(dir, node.frame)
    requires p in dir && i < ENTRIES && Step(p, i) !in dir && dir' == dir[Step(p, i) := node]
    requires SlotWritten(frames, frames', dir, p, i, node.entry)
    requires node.frame in frames' && frames'[node.frame] == ClearedTable()
    ensures Separate(frames', dir')
  {
  }

  lemma AddDepths(dir: map<Path, Node>, levels: nat, p: Path, i: nat, node: Node, dir': map<Path, Node>)
    requires (forall q :: q in dir ==> Depth(q) < levels) && p in dir && Depth(p) + 1 < levels && dir' == dir[Step(p, i) := node]
    ensures forall q :: q in dir' ==> Depth(q) < levels
  {
  }

  /** Links of tables: the old ones are as before, the new one is entered. */
  lemma AddLinks(frames: map<Frame, Table>, dir: map<Path, Node>, levels: nat, p: Path, i: nat,
                 frames': map<Frame, Table>, node: Node, dir': map<Path, Node>, q: Path, j: nat)
    requires Linked(frames, dir, levels) && Separate(frames, dir) && p in dir && i < ENTRIES && Step(p, i) !in dir
    requires dir' == dir[Step(p, i) := node] && SlotWritten(frames, frames', dir, p, i, node.entry)
    requires Separate(frames', dir') && Step(q, j) in dir'
    ensures q in dir' && j < ENTRIES && frames'[dir'[q].frame][j] == dir'[Step(q, j)].entry
  {
    if Step(q, j) != Step(p, i) { assert Step(q, j) in dir; }
  }

  /** Slots without a table: the old ones are as before, those of the new table are clear. */
  lemma AddEmpty(frames: map<Frame, Table>, dir: map<Path, Node>, levels: nat, p: Path, i: nat,
                 frames': map<Frame, Table>, node: Node, dir': map<Path, Node>, q: Path, j: nat)
    requires Linked(frames, dir, levels) && Separate(frames, dir) && p in dir && i < ENTRIES && Step(p, i) !in dir
    requires dir' == dir[Step(p, i) := node] && SlotWritten(frames, frames', dir, p, i, node.entry)
    requires Separate(frames', dir') && node.frame in frames' && frames'[node.frame] == ClearedTable()
    requires q in dir' && j < ENTRIES && Depth(q) + 1 < levels && Step(q, j) !in dir'
    ensures frames'[dir'[q].frame][j] == 0
  {
    assert Step(q, j) !in dir && Step(q, j) != Step(p, i);
  }

  lemma AddLinked(frames: map<Frame, Table>, dir: map<Path, Node>, levels: nat, p: Path, i: nat,
                  frames': map<Frame, Table>, node: Node, dir': map<Path, Node>)
    requires Linked(frames, dir, levels) && Separate(frames, dir) && Fresh(dir, node.frame)
    requires p in dir && i < ENTRIES && Depth(p) + 1 < levels && Step(p, i) !in dir && dir' == dir[Step(p, i) := node]
    requires SlotWritten(frames, frames', dir, p, i, node.entry)
    requires node.frame in frames' && frames'[node.frame] == ClearedTable()
    ensures Linked(frames', dir', levels)
  {
    AddSeparate(frames, dir, p, i, frames', node, dir');
    AddDepths(dir, levels, p, i, node, dir');
    forall q, j: nat | Step(q, j) in dir'
      ensures q in dir' && j < ENTRIES && frames'[dir'[q].frame][j] == dir'[Step(q, j)].entry
    {
      AddLinks(frames, dir, levels, p, i, frames', node, dir', q, j);
    }
    forall q, j: nat | q in dir' && j < ENTRIES && Depth(q) + 1 < levels && Step(q, j) !in dir'
      ensures frames'[dir'[q].frame][j] == 0
    {
      AddEmpty(frames, dir, levels, p, i, frames', node, dir', q, j);
    }
  }

  lemma AddHolds(frames: map<Frame, Table>, dir: map<Path, Node>, plain: map<Path, bv64>, levels: nat, p: Path, i: nat,
                 frames': map<Frame, Table>, node: Node, dir': map<Path, Node>)
    requires Linked(frames, dir, levels) && Holds(frames, dir, plain, levels) && Separate(frames, dir)
    requires p in dir && i < ENTRIES && Depth(p) + 1 < levels && Step(p, i) !in dir && dir' == dir[Step(p, i) := node]
    requires SlotWritten(frames, frames', dir, p, i, node.entry) && Linked(frames', dir', levels)
    requires frames'[node.frame] == ClearedTable()
    ensures Holds(frames', dir', plain, levels)
  {
    forall q, j: nat | q in dir' && j < ENTRIES && Depth(q) + 1 == levels
      ensures frames'[dir'[q].frame][j] == Lookup(plain, Step(q, j))
    {
      if q in dir {
        assert frames[dir[q].frame][j] == Lookup(plain, Step(q, j));
      } else {
        assert Step(q, j) !in plain;
      }
    }
  }

  /** A new, cleared table entered in an empty slot keeps everything in order. */
  lemma AddTable(frames: map<Frame, Table>, dir: map<Path, Node>, plain: map<Path, bv64>, levels: nat,
                 p: Path, i: nat, cleared: map<Frame, Table>, frames': map<Frame, Table>, node: Node)
    requires InOrder(frames, dir, plain, levels) && Fresh(dir, node.frame)
    requires p in dir && i < ENTRIES && Depth(p) + 1 < levels && Step(p, i) !in dir
    requires cleared == frames[node.frame := ClearedTable()] && dir[p].frame in cleared && |cleared[dir[p].frame]| == ENTRIES
    requires frames' == cleared[dir[p].frame := cleared[dir[p].frame][i := node.entry]]
    ensures InOrder(frames', dir[Step(p, i) := node], plain, levels)
  {
    TableEntered(frames, dir, p, i, cleared, frames', node);
    AddLinked(frames, dir, levels, p, i, frames', node, dir[Step(p, i) := node]);
    AddHolds(frames, dir, plain, levels, p, i, frames', node, dir[Step(p, i) := node]);
  }

  lemma SlotSet(frames: map<Frame, Table>, dir: map<Path, Node>, p: Path, i: nat, entry: bv64, frames': map<Frame,
                Table>)
    requires Separate(frames, dir) && p in dir && i < ENTRIES
    requires frames' == frames[dir[p].frame := frames[dir[p].frame][i := entry]]
    ensures SlotWritten(frames, frames', dir, p, i, entry)
  {
  }

  lemma SetLinked(frames: map<Frame, Table>, dir: map<Path, Node>, levels: nat, p: Path, i: nat, entry: bv64,
                  frames': map<Frame, Table>)
    requires Linked(frames, dir, levels) && Separate(frames, dir) && p in dir && i < ENTRIES && Depth(p) + 1 == levels
    requires SlotWritten(frames, frames', dir, p, i, entry)
    ensures Linked(frames', dir, levels)
  {
    forall q, j: nat | Step(q, j) in dir ensures frames'[dir[q].frame][j] == dir[Step(q, j)].entry {
      assert Depth(Step(q, j)) == Depth(q) + 1;
    }
  }

  lemma SetHolds(frames: map<Frame, Table>, dir: map<Path, Node>, plain: map<Path, bv64>, levels: nat, p: Path, i: nat,
                 entry: bv64, frames': map<Frame, Table>, plain': map<Path, bv64>)
    requires Linked(frames, dir, levels) && Holds(frames, dir, plain, levels) && Separate(frames, dir)
    requires p in dir && i < ENTRIES && Depth(p) + 1 == levels && plain' == plain[Step(p, i) := entry]
    requires SlotWritten(frames, frames', dir, p, i, entry) && Linked(frames', dir, levels)
    ensures Holds(frames', dir, plain', levels)
  {
    forall q, j: nat | q in dir && j < ENTRIES && Depth(q) + 1 == levels
      ensures frames'[dir[q].frame][j] == Lookup(plain', Step(q, j))
    {
      assert frames[dir[q].frame][j] == Lookup(plain, Step(q, j));
    }
  }

  /** Writing a slot of a leaf table changes one page of the plain map. */
  lemma SetPage(frames: map<Frame, Table>, dir: map<Path, Node>, plain: map<Path, bv64>, levels: nat,
                p: Path, i: nat, entry: bv64, frames': map<Frame, Table>)
    requires InOrder(frames, dir, plain, levels) && p in dir && i < ENTRIES && Depth(p) + 1 == levels
    requires frames' == frames[dir[p].frame := frames[dir[p].frame][i := entry]]
    ensures InOrder(frames', dir, plain[Step(p, i) := entry], levels)
  {
    SlotSet(frames, dir, p, i, entry, frames');
    SetLinked(frames, dir, levels, p, i, entry, frames');
    SetHolds(frames, dir, plain, levels, p, i, entry, frames', plain[Step(p, i) := entry]);
  }

  lemma UnusedRest(dir: map<Path, Node>, pool: seq<Frame>, p: Path)
    requires Unused(dir, pool) && |pool| > 0
    ensures Unused(dir[p := NewNode(pool[0])], pool[1..]) && Fresh(dir, pool[0]) && PageAligned(pool[0])
  {
  }

  lemma NodesMore(dir: map<Path, Node>, p: Path, f: Frame)
    requires Nodes(dir) && PageAligned(f)
    ensures Nodes(dir[p := NewNode(f)])
  {
  }

  /** What a slot above the leaf tables says: a valid link to the table below it if there is one,
      and never a large page. */
  lemma SlotOf(frames: map<Frame, Table>, dir: map<Path, Node>, levels: nat, p: Path, i: nat)
    requires Linked(frames, dir, levels) && Nodes(dir) && p in dir && i < ENTRIES && Depth(p) + 1 < levels
    ensures var entry := frames[dir[p].frame][i];
            && !IsLarge(entry) && (IsValid(entry) <==> Step(p, i) in dir)
            && (Step(p, i) in dir ==> Frame(GetAddress(entry)) == dir[Step(p, i)].frame)
            && (Step(p, i) !in dir ==> entry == 0)
  {
    EmptyEntry();
    if Step(p, i) in dir { LinkEntry(dir[Step(p, i)].frame.address); }
  }

  /** Each table is linked from exactly one slot above the leaf tables. */
  lemma OneParent(frames: map<Frame, Table>, dir: map<Path, Node>, levels: nat, p: Path, i: nat, q: Path)
    requires Linked(frames, dir, levels) && Nodes(dir) && p in dir && i < ENTRIES && Depth(p) + 1 < levels && q in dir
    ensures IsValid(frames[dir[p].frame][i]) && Frame(GetAddress(frames[dir[p].frame][i])) == dir[q].frame
            <==> q == Step(p, i)
  {
    SlotOf(frames, dir, levels, p, i);
  }

  function OffsetIn(address: nat): bv64 { (address % BIT_12) as bv64 }

  /** What an entry translates an address with the given offset in its page to. */
  function Translated(entry: bv64, offset: bv64): bv64
  {
    if HasFlags(entry, PRESENT) then GetAddress(entry) + offset else NO_ADDRESS
  }

  lemma TranslatedParts(entry: bv64, offset: bv64)
    requires offset <= OFFSET_MASK && HasFlags(entry, PRESENT)
    ensures GetAddress(Translated(entry, offset)) == GetAddress(entry) && GetFlags(Translated(entry, offset)) == offset
  {
  }

  /** The address an entry translates to: its address field and, below it, the offset in the page. */
  lemma TranslatedBits(entry: bv64, address: nat, t: bv64)
    requires t == Translated(entry, OffsetIn(address))
    ensures if !HasFlags(entry, PRESENT) then t == 0xffff_ffff_ffff_ffff
            else GetAddress(t) == GetAddress(entry) && GetFlags(t) == ((address % 0x1000) as bv64)
  {
    OffsetSmall(address);
    if HasFlags(entry, PRESENT) { TranslatedParts(entry, OffsetIn(address)); }
  }

  /** The entry a remap leaves at the new page. */
  function RemappedEntry(entry: bv64, offset: bv64, parsed: bv64): bv64
  {
    NewEntry(Translated(entry, offset), parsed)
  }

  /** Tables, plain map and unused frames of a page map are in order. */
  ghost predicate Sound(frames: map<Frame, Table>, pool: seq<Frame>, top: Frame, dir: map<Path, Node>,
                        plain: map<Path, bv64>, levels: nat)
  {
    InOrder(frames, dir, plain, levels) && dir[Root].frame == top && Nodes(dir) && Unused(dir, pool)
  }

  lemma SetSound(frames: map<Frame, Table>, pool: seq<Frame>, top: Frame, dir: map<Path, Node>, plain: map<Path, bv64>,
                 levels: nat, p: Path, i: nat, entry: bv64)
    requires Sound(frames, pool, top, dir, plain, levels) && p in dir && i < ENTRIES && Depth(p) + 1 == levels
    ensures dir[p].frame in frames && i < |frames[dir[p].frame]|
    ensures Sound(WithSlot(frames, dir[p].frame, i, entry), pool, top, dir, plain[Step(p, i) := entry], levels)
  {
    SetPage(frames, dir, plain, levels, p, i, entry, WithSlot(frames, dir[p].frame, i, entry));
  }

  /** The frames with one slot of a table written. */
  function WithSlot(frames: map<Frame, Table>, table: Frame, i: nat, entry: bv64): map<Frame, Table>
    requires table in frames && i < |frames[table]|
  {
    frames[table := frames[table][i := entry]]
  }

  /** The frames once the next unused one has been cleared. */
  function Cleared(frames: map<Frame, Table>, pool: seq<Frame>): map<Frame, Table>
    requires |pool| > 0
  {
    frames[pool[0] := ClearedTable()]
  }

  /** A slot linked to a new table. */
  function LinkTo(entry: bv64, table: Frame): bv64
  {
    SetFlags(SetAddress(entry, table.address), NEW_PAGE_FLAGS)
  }

  /** The frames with a new table behind a slot. */
  function WithTable(frames: map<Frame, Table>, pool: seq<Frame>, table: Frame, i: nat): map<Frame, Table>
    requires |pool| > 0 && table in Cleared(frames, pool) && i < |Cleared(frames, pool)[table]|
  {
    var cleared := Cleared(frames, pool);
    WithSlot(cleared, table, i, LinkTo(cleared[table][i], pool[0]))
  }

  lemma TableCleared(frames: map<Frame, Table>, pool: seq<Frame>, top: Frame, dir: map<Path, Node>,
                     plain: map<Path, bv64>, levels: nat, p: Path)
    requires Sound(frames, pool, top, dir, plain, levels) && p in dir && |pool| > 0
    ensures dir[p].frame in Cleared(frames, pool) && |Cleared(frames, pool)[dir[p].frame]| == ENTRIES
  {
  }

  lemma AddSound(frames: map<Frame, Table>, pool: seq<Frame>, top: Frame, dir: map<Path, Node>, plain: map<Path, bv64>,
                 levels: nat, p: Path, i: nat, frames': map<Frame, Table>, pool': seq<Frame>, dir': map<Path, Node>)
    requires Sound(frames, pool, top, dir, plain, levels) && p in dir && i < ENTRIES && Depth(p) + 1 < levels
    requires Step(p, i) !in dir && |pool| > 0 && pool' == pool[1..] && dir' == dir[Step(p, i) := NewNode(pool[0])]
    requires dir[p].frame in Cleared(frames, pool) && |Cleared(frames, pool)[dir[p].frame]| == ENTRIES
    requires frames' == WithTable(frames, pool, dir[p].frame, i)
    ensures Sound(frames', pool', top, dir', plain, levels)
  {
    var node, cleared, table := NewNode(pool[0]), Cleared(frames, pool), dir[p].frame;
    UnusedRest(dir, pool, Step(p, i));
    SlotOf(frames, dir, levels, p, i);
    assert cleared[table] == frames[table];
    assert LinkTo(0, pool[0]) == node.entry;
    AddTable(frames, dir, plain, levels, p, i, cleared, frames', node);
    NodesMore(dir, Step(p, i), pool[0]);
  }

  // ---- the walk of the processor -----------------------------------------------------------

  /** What the processor finds when it walks down from a table: the entry at the first index, and, if
      that is present and indices remain, what it finds in the table at its address field. */
  ghost function HardwareWalk(frames: map<Frame, Table>, table: Frame, indices: seq<nat>): bv64
    requires AllIndices(indices)
    decreases |indices|
  {
    if table !in frames || |frames[table]| != 512 then 0 else
      var entry := frames[table][indices[0]];
      if |indices| == 1 then entry
      else if entry & 0x1 == 0 then 0
      else HardwareWalk(frames, Frame(entry & 0x000f_ffff_ffff_f000), indices[1..])
  }

  /** Below a table that does not exist no page was ever mapped. */
  lemma {:induction false} NothingBelow(frames: map<Frame, Table>, dir: map<Path, Node>, plain: map<Path, bv64>,
                                        levels: nat, p: Path, indices: seq<nat>)
    requires InOrder(frames, dir, plain, levels) && p !in dir && AllIndices(indices)
    ensures Lookup(plain, Extend(p, indices)) == 0
    decreases |indices|
  {
    var q := Step(p, indices[0]);
    assert q !in dir && q !in plain;
    if |indices| > 1 { NothingBelow(frames, dir, plain, levels, q, indices[1..]); }
  }

  lemma SlotSeen(frames: map<Frame, Table>, dir: map<Path, Node>, levels: nat, p: Path, i: nat)
    requires Linked(frames, dir, levels) && Nodes(dir) && p in dir && i < ENTRIES && Depth(p) + 1 < levels
    ensures var entry := frames[dir[p].frame][i];
            && (entry & 0x1 != 0 <==> Step(p, i) in dir)
            && (Step(p, i) in dir ==> Frame(entry & 0x000f_ffff_ffff_f000) == dir[Step(p, i)].frame)
  {
    SlotOf(frames, dir, levels, p, i);
  }

  lemma LeafWalk(frames: map<Frame, Table>, dir: map<Path, Node>, plain: map<Path, bv64>, levels: nat, p: Path,
                 indices: seq<nat>)
    requires InOrder(frames, dir, plain, levels) && p in dir && Depth(p) + 1 == levels && AllIndices(indices) && |indices| == 1
    ensures HardwareWalk(frames, dir[p].frame, indices) == Lookup(plain, Step(p, indices[0]))
  {
    assert Depth(Step(p, indices[0])) == levels;
  }

  lemma InnerWalk(frames: map<Frame, Table>, dir: map<Path, Node>, levels: nat, p: Path, indices: seq<nat>, q: Path)
    requires Linked(frames, dir, levels) && Nodes(dir) && p in dir && Depth(p) + |indices| == levels
    requires AllIndices(indices) && |indices| > 1 && q == Step(p, indices[0])
    ensures HardwareWalk(frames, dir[p].frame, indices)
            == if q in dir then HardwareWalk(frames, dir[q].frame, indices[1..]) else 0
  {
    SlotSeen(frames, dir, levels, p, indices[0]);
  }

  lemma {:induction false} WalkFrom(frames: map<Frame, Table>, dir: map<Path, Node>, plain: map<Path, bv64>, levels: nat,
                                    p: Path, indices: seq<nat>)
    requires InOrder(frames, dir, plain, levels) && Nodes(dir) && p in dir && Depth(p) + |indices| == levels
    requires AllIndices(indices)
    ensures HardwareWalk(frames, dir[p].frame, indices) == Lookup(plain, Extend(p, indices))
    decreases |indices|
  {
    var q := Step(p, indices[0]);
    if |indices| == 1 {
      LeafWalk(frames, dir, plain, levels, p, indices);
    } else {
      InnerWalk(frames, dir, levels, p, indices, q);
      if q in dir {
        WalkFrom(frames, dir, plain, levels, q, indices[1..]);
      } else {
        NothingBelow(frames, dir, plain, levels, q, indices[1..]);
      }
    }
  }

  /** For every address, mapped or not, the processor finds what the plain map says. */
  lemma WalkAgrees(frames: map<Frame, Table>, pool: seq<Frame>, top: Frame, dir: map<Path, Node>, plain: map<Path, bv64>,
                   five: bool, address: nat)
    requires Sound(frames, pool, top, dir, plain, Levels(five))
    ensures HardwareWalk(frames, top, WalkIndices(five, address)) == Lookup(plain, PathOf(five, address))
  {
    PathExtends(five, address);
    WalkFrom(frames, dir, plain, Levels(five), Root, WalkIndices(five, address));
  }

  /** A change of one page of the plain map: the processor finds the new entry for its addresses, and
      for those of every other page what it found before. */
  lemma OnePageFound(frames: map<Frame, Table>, pool: seq<Frame>, dir: map<Path, Node>, plain: map<Path, bv64>, top: Frame,
                     frames': map<Frame, Table>, pool': seq<Frame>, dir': map<Path, Node>, plain': map<Path, bv64>,
                     five: bool, address: nat, entry: bv64)
    requires Sound(frames, pool, top, dir, plain, Levels(five)) && Sound(frames', pool', top, dir', plain', Levels(five))
    requires plain' == plain[PathOf(five, address) := entry]
    ensures HardwareWalk(frames', top, WalkIndices(five, address)) == entry
    ensures forall other: nat :: PageOf(five, other) != PageOf(five, address) ==>
              HardwareWalk(frames', top, WalkIndices(five, other)) == HardwareWalk(frames, top, WalkIndices(five, other))
  {
    WalkAgrees(frames', pool', top, dir', plain', five, address);
    forall other: nat | PageOf(five, other) != PageOf(five, address)
      ensures HardwareWalk(frames', top, WalkIndices(five, other)) == HardwareWalk(frames, top, WalkIndices(five, other))
    {
      OtherPages(plain, five, address, entry, other);
      WalkAgrees(frames, pool, top, dir, plain, five, other);
      WalkAgrees(frames', pool', top, dir', plain', five, other);
    }
  }

  /** The slots of the kernel half of the top table before `end` lead to tables. */
  ghost predicate TopFilled(dir: map<Path, Node>, end: nat)
  {
    forall i: nat {:trigger Step(Root, i)} :: 256 <= i < end ==> Step(Root, i) in dir
  }

  lemma TopFilledMore(dir: map<Path, Node>, dir': map<Path, Node>, end: nat)
    requires TopFilled(dir, end) && dir.Keys <= dir'.Keys && Step(Root, end) in dir'
    ensures TopFilled(dir', end + 1)
  {
    forall i: nat | 256 <= i < end ensures Step(Root, i) in dir' { assert Step(Root, i) in dir.Keys; }
  }

  class PageMap {
    const fiveLevels: bool
    /** The physical frames, by address. */
    var frames: map<Frame, Table>
    /** The frames the physical allocator is going to hand out, in order. */
    var pool: seq<Frame>
    var topLevel: Frame

    /** Which frame holds which table. */
    ghost var dir: map<Path, Node>
    /** The plain map: the entry of every page that was ever mapped. */
    ghost var plain: map<Path, bv64>

    ghost predicate Valid()
      reads this
    {
      Sound(frames, pool, topLevel, dir, plain, Levels(fiveLevels))
    }

    /** The leaf table for an address exists: a page in its neighbourhood was mapped before. */
    ghost predicate Reached(address: nat)
      reads this
    {
      PathOf(fiveLevels, address).parent in dir
    }

    ghost function EntryOf(address: nat): bv64
      reads this
    {
      Lookup(plain, PathOf(fiveLevels, address))
    }

    /** A frame from the physical allocator, which clears it. */
    method AllocateFrame() returns (frame: Frame)
      requires |pool| > 0
      modifies `frames, `pool
      ensures frame == old(pool[0]) && pool == old(pool[1..]) && frames == Cleared(old(frames), old(pool))
    {
      frame, pool := pool[0], pool[1..];
      frames := frames[frame := ClearedTable()];
    }

    constructor (physicalFrames: map<Frame, Table>, freeFrames: seq<Frame>, five: bool)
      requires |freeFrames| > 0 && Unused(map[], freeFrames)
      ensures Valid() && plain == map[] && dir.Keys == {Root} && pool == freeFrames[1..] && fiveLevels == five
    {
      fiveLevels := five;
      frames := physicalFrames;
      pool := freeFrames;
      new;
      topLevel := AllocateFrame();
      dir, plain := map[Root := NewNode(topLevel)], map[];
      assert topLevel == freeFrames[0];
    }

    /** The table behind a slot. An empty slot gets a new table if `allocate` is set; if not, the
        result is the null frame. */
    method GetNextLevel(table: Frame, index: nat, allocate: bool, ghost p: Path) returns (next: Frame)
      requires Valid() && p in dir && dir[p].frame == table && index < ENTRIES && Depth(p) + 1 < Levels(fiveLevels)
      requires allocate && Step(p, index) !in dir ==> |pool| > 0
      modifies `frames, `pool, `dir
      ensures Valid()
      ensures Step(p, index) in old(dir) || !allocate ==> dir == old(dir) && pool == old(pool) && frames == old(frames)
      ensures Step(p, index) in old(dir) ==> next == old(dir)[Step(p, index)].frame
      ensures Step(p, index) !in old(dir) && allocate ==>
                dir == old(dir)[Step(p, index) := NewNode(next)] && |pool| == old(|pool|) - 1
      ensures Step(p, index) !in old(dir) && !allocate ==> next == Frame(0)
    {
      SlotOf(frames, dir, Levels(fiveLevels), p, index);
      var entry := frames[table][index];
      if IsValid(entry) {
        next := Frame(GetAddress(entry));
      } else if allocate {
        next := EnterTable(table, index, p);
      } else {
        next := Frame(0);
      }
    }

    /** Enters a new table in an empty slot. */
    method EnterTable(table: Frame, index: nat, ghost p: Path) returns (next: Frame)
      requires Valid() && p in dir && dir[p].frame == table && index < ENTRIES && Depth(p) + 1 < Levels(fiveLevels)
      requires Step(p, index) !in dir && |pool| > 0
      modifies `frames, `pool, `dir
      ensures Valid() && dir == old(dir)[Step(p, index) := NewNode(next)] && |pool| == old(|pool|) - 1
    {
      TableCleared(frames, pool, topLevel, dir, plain, Levels(fiveLevels), p);
      next := AllocateFrame();
      frames := WithSlot(frames, table, index, LinkTo(frames[table][index], next));
      dir := dir[Step(p, index) := NewNode(next)];
      AddSound(old(frames), old(pool), topLevel, old(dir), plain, Levels(fiveLevels), p, index, frames, pool, dir);
    }

    /** Makes sure that a slot of the top table leads to a table. */
    method FillTopSlot(i: nat)
      requires Valid() && |pool| > 0 && i < ENTRIES
      modifies `frames, `pool, `dir
      ensures Valid() && Step(Root, i) in dir && |pool| >= old(|pool|) - 1 && old(dir).Keys <= dir.Keys
    {
      var _ := GetNextLevel(topLevel, i, true, Root);
    }

    /** Gives every slot of the kernel half of the top table a table below it; no page is mapped. */
    method InitializeKernelHalf()
      requires Valid() && |pool| >= 256
      modifies `frames, `pool, `dir
      ensures Valid() && forall i: nat {:trigger Step(Root, i)} :: 256 <= i < 512 ==> Step(Root, i) in dir
    {
      for i := 256 to 512
        invariant Valid() && |pool| >= 512 - i && TopFilled(dir, i)
      {
        ghost var before := dir;
        FillTopSlot(i);
        TopFilledMore(before, dir, i);
      }
    }

    /** The part of the walk above the page directories: one level, or two with five levels. */
    method UpperWalk(address: nat, allocate: bool, ghost path: Path) returns (table: Frame)
      requires Valid() && path == PathOf(fiveLevels, address).parent.parent.parent
      requires if allocate then |pool| >= 4 else path in dir
      modifies `frames, `pool, `dir
      ensures Valid() && path in dir && table == dir[path].frame
      ensures !allocate ==> frames == old(frames) && pool == old(pool) && dir == old(dir)
      ensures forall p :: p in old(dir) ==> p in dir
      ensures |pool| >= old(|pool|) - 2
    {
      table := topLevel;
      if fiveLevels {
        assert path.parent == Step(Root, IndexAt(address, BIT_48)) && path == Step(path.parent, path.index);
        table := GetNextLevel(table, IndexAt(address, BIT_48), allocate, Root);
        table := GetNextLevel(table, IndexAt(address, BIT_39), allocate, path.parent);
      } else {
        table := GetNextLevel(table, IndexAt(address, BIT_39), allocate, Root);
      }
    }

    /** The slot of a small page: the leaf table and the index in it. */
    method VirtualToEntry(address: nat, allocate: bool) returns (table: Frame, index: nat)
      requires Valid() && (if allocate then |pool| >= 4 else Reached(address))
      modifies `frames, `pool, `dir
      ensures Valid() && Reached(address) && table == dir[PathOf(fiveLevels, address).parent].frame
      ensures index == PathOf(fiveLevels, address).index
      ensures !allocate ==> frames == old(frames) && pool == old(pool) && dir == old(dir)
      ensures forall p :: p in old(dir) ==> p in dir
      ensures |pool| >= old(|pool|) - 4
    {
      ghost var leaf := PathOf(fiveLevels, address).parent;
      AncestorsReached(leaf);
      ghost var upper := leaf.parent.parent;
      table := UpperWalk(address, allocate, upper);
      table := LowerWalk(table, address, allocate, upper);
      index := IndexAt(address, BIT_12);
    }

    /** The two levels below, down to the leaf table. Large pages do not occur, so that the two tests
        for them (the second of which looks at the wrong table) fail. */
    method LowerWalk(pdp: Frame, address: nat, allocate: bool, ghost upper: Path) returns (table: Frame)
      requires Valid() && upper in dir && pdp == dir[upper].frame && upper == PathOf(fiveLevels, address).parent.parent.parent
      requires if allocate then |pool| >= 2
               else PathOf(fiveLevels, address).parent in dir && PathOf(fiveLevels, address).parent.parent in dir
      modifies `frames, `pool, `dir
      ensures Valid() && Reached(address) && table == dir[PathOf(fiveLevels, address).parent].frame
      ensures !allocate ==> frames == old(frames) && pool == old(pool) && dir == old(dir)
      ensures forall p :: p in old(dir) ==> p in dir
      ensures |pool| >= old(|pool|) - 2
    {
      ghost var leaf := PathOf(fiveLevels, address).parent;
      NeverLarge(pdp, IndexAt(address, BIT_30), upper);
      table := GetNextLevel(pdp, IndexAt(address, BIT_30), allocate, upper);
      NeverLarge(pdp, IndexAt(address, BIT_21), upper);
      table := GetNextLevel(table, IndexAt(address, BIT_21), allocate, leaf.parent);
    }

    /** The tests for a large page fail, whatever index they use. */
    lemma NeverLarge(table: Frame, index: nat, p: Path)
      requires Valid() && p in dir && table == dir[p].frame && index < ENTRIES && Depth(p) + 1 < Levels(fiveLevels)
      ensures table in frames && |frames[table]| == ENTRIES && !IsLarge(frames[table][index])
    {
      SlotOf(frames, dir, Levels(fiveLevels), p, index);
    }

    /** Every table above a table exists. */
    lemma AncestorsReached(p: Path)
      requires Valid()
      ensures p in dir && p.Step? ==> p.parent in dir
      ensures p in dir && p.Step? && p.parent.Step? ==> p.parent.parent in dir
      ensures p in dir && p.Step? && p.parent.Step? && p.parent.parent.Step? ==> p.parent.parent.parent in dir
    {
      if p.Step? {
        assert p == Step(p.parent, p.index);
        if p.parent.Step? {
          assert p.parent == Step(p.parent.parent, p.parent.index);
          if p.parent.parent.Step? { assert p.parent.parent == Step(p.parent.parent.parent, p.parent.parent.index); }
        }
      }
    }

    /** Writes a slot of a leaf table, and with it one page of the plain map. */
    method WriteEntry(table: Frame, index: nat, entry: bv64, ghost p: Path)
      requires Valid() && p in dir && dir[p].frame == table && index < ENTRIES && Depth(p) + 1 == Levels(fiveLevels)
      modifies `frames, `plain
      ensures Valid() && plain == old(plain)[Step(p, index) := entry]
    {
      SetSound(frames, pool, topLevel, dir, plain, Levels(fiveLevels), p, index, entry);
      frames := WithSlot(frames, table, index, entry);
      plain := plain[Step(p, index) := entry];
    }

    /** Maps a page: in the plain map, the page gets the entry and no other page changes. */
    method MapPage(address: nat, physical: bv64, flags: bv64)
      requires Valid() && SmallPage(flags) && |pool| >= 4
      modifies `frames, `pool, `dir, `plain
      ensures Valid() && Reached(address)
      ensures plain == old(plain)[PathOf(fiveLevels, address) := NewEntry(physical, ParseFlags(flags))]
      ensures HardwareWalk(frames, topLevel, WalkIndices(fiveLevels, address)) == NewEntry(physical, ParseFlags(flags))
      ensures forall other: nat :: PageOf(fiveLevels, other) != PageOf(fiveLevels, address) ==>
                HardwareWalk(frames, topLevel, WalkIndices(fiveLevels, other))
                == old(HardwareWalk(frames, topLevel, WalkIndices(fiveLevels, other)))
      ensures forall p :: p in old(dir) ==> p in dir
      ensures |pool| >= old(|pool|) - 4
    {
      var parsed := ParseFlags(flags);
      var table, index := VirtualToEntry(address, true);
      ghost var page := PathOf(fiveLevels, address);
      WriteEntry(table, index, SetFlags(SetAddress(0, physical), parsed), page.parent);
      OnePageFound(old(frames), old(pool), old(dir), old(plain), topLevel, frames, pool, dir, plain, fiveLevels, address,
                   NewEntry(physical, ParseFlags(flags)));
    }

    /** Unmaps a page that was mapped at some time: its entry is reset, no other changes. */
    method UnmapPage(address: nat)
      requires Valid() && Reached(address)
      modifies `frames, `pool, `dir, `plain
      ensures Valid() && dir == old(dir) && pool == old(pool)
      ensures plain == old(plain)[PathOf(fiveLevels, address) := 0]
      ensures HardwareWalk(frames, topLevel, WalkIndices(fiveLevels, address)) == 0
      ensures forall other: nat :: PageOf(fiveLevels, other) != PageOf(fiveLevels, address) ==>
                HardwareWalk(frames, topLevel, WalkIndices(fiveLevels, other))
                == old(HardwareWalk(frames, topLevel, WalkIndices(fiveLevels, other)))
    {
      var table, index := VirtualToEntry(address, false);
      ghost var page := PathOf(fiveLevels, address);
      WriteEntry(table, index, 0, page.parent);
      OnePageFound(old(frames), old(pool), old(dir), old(plain), topLevel, frames, pool, dir, plain, fiveLevels, address, 0);
    }

    /** Gives a page new flags and keeps its address. */
    method SetFlagsPage(address: nat, flags: bv64)
      requires Valid() && SmallPage(flags) && |pool| >= 4
      modifies `frames, `pool, `dir, `plain
      ensures Valid() && Reached(address)
      ensures plain == old(plain)[PathOf(fiveLevels, address)
                                  := NewEntry(GetAddress(old(EntryOf(address))), ParseFlags(flags))]
    {
      var parsed := ParseFlags(flags);
      var table, index := VirtualToEntry(address, true);
      ghost var page := PathOf(fiveLevels, address);
      assert page == Step(page.parent, page.index);
      var physical := GetAddress(frames[table][index]);
      WriteEntry(table, index, SetFlags(SetAddress(0, physical), parsed), page.parent);
    }

    /** The walk agrees with the plain map: the address in the entry and the offset in the page,
        or all ones if the page is not present. */
    method VirtualToPhysical(address: nat) returns (physical: bv64)
      requires Valid() && Reached(address)
      modifies `frames, `pool, `dir
      ensures Valid() && frames == old(frames) && pool == old(pool) && dir == old(dir)
      ensures physical == Translated(EntryOf(address), OffsetIn(address))
      ensures var e := HardwareWalk(frames, topLevel, WalkIndices(fiveLevels, address));
              if !HasFlags(e, PRESENT) then physical == 0xffff_ffff_ffff_ffff
              else GetAddress(physical) == GetAddress(e) && GetFlags(physical) == (address % 0x1000) as bv64
    {
      WalkAgrees(frames, pool, topLevel, dir, plain, fiveLevels, address);
      var table, index := VirtualToEntry(address, false);
      ghost var page := PathOf(fiveLevels, address);
      assert page == Step(page.parent, page.index);
      physical := TranslateEntry(frames[table][index], OffsetIn(address));
      TranslatedBits(HardwareWalk(frames, topLevel, WalkIndices(fiveLevels, address)), address, physical);
    }

    static method TranslateEntry(entry: bv64, offset: bv64) returns (physical: bv64)
      ensures physical == Translated(entry, offset)
    {
      if !HasFlags(entry, PRESENT) {
        return NO_ADDRESS;
      }
      physical := GetAddress(entry) + offset;
    }

    /** Moves a mapping: looks the old page up, unmaps it, maps what was found at the new page. */
    method RemapPage(oldAddress: nat, newAddress: nat, flags: bv64)
      requires Valid() && Reached(oldAddress) && SmallPage(flags) && |pool| >= 4
      modifies `frames, `pool, `dir, `plain
      ensures Valid()
      ensures plain == old(plain)[PathOf(fiveLevels, oldAddress) := 0]
                                 [PathOf(fiveLevels, newAddress)
                                  := RemappedEntry(old(EntryOf(oldAddress)), OffsetIn(oldAddress), ParseFlags(flags))]
      ensures RemapRight(old(EntryOf(oldAddress)), EntryOf(newAddress), ParseFlags(flags))
              <==> HasFlags(old(EntryOf(oldAddress)), PRESENT) && OffsetIn(oldAddress) & !ParseFlags(flags) == 0
    {
      ghost var entry := EntryOf(oldAddress);
      var physical := VirtualToPhysical(oldAddress);
      UnmapPage(oldAddress);
      MapPage(newAddress, physical, flags);
      RemapOutcome(entry, oldAddress, flags);
    }
  }

  // ---- what the plain map promises ---------------------------------------------------------

  /** The entry of a mapping with an aligned address: it is present if the flags make it so, and
      its address is the one mapped, ... */
  lemma MappedEntry(physical: bv64, parsed: bv64)
    requires parsed & PAGE_ADDR_MASK == 0 && GetAddress(physical) == physical
    ensures GetAddress(NewEntry(physical, parsed)) == physical
    ensures HasFlags(NewEntry(physical, parsed), PRESENT) <==> HasFlags(parsed, PRESENT)
  {
    EntryAddress(physical, parsed);
    PresentBit(physical, parsed);
  }

  lemma PresentBit(physical: bv64, parsed: bv64)
    requires GetAddress(physical) == physical
    ensures HasFlags(NewEntry(physical, parsed), PRESENT) <==> HasFlags(parsed, PRESENT)
  {
  }

  /** A change of one page does not reach an address of any other page. */
  lemma OtherPages(plain: map<Path, bv64>, five: bool, address: nat, entry: bv64, other: nat)
    requires PageOf(five, other) != PageOf(five, address)
    ensures Lookup(plain[PathOf(five, address) := entry], PathOf(five, other)) == Lookup(plain, PathOf(five, other))
  {
    SamePage(five, address, other);
  }

  // ---- what a remap does -------------------------------------------------------------------

  lemma OffsetSmall(address: nat)
    ensures OffsetIn(address) <= OFFSET_MASK
  {
    var r := address % BIT_12;
    assert r < 0x1000;
    assert (r as bv64) <= 0xfff;
  }

  /** A remap of a present page moves its address; the offset of the old address joins the flags. */
  lemma RemapMoves(entry: bv64, offset: bv64, parsed: bv64)
    requires parsed & PAGE_ADDR_MASK == 0 && offset <= OFFSET_MASK && HasFlags(entry, PRESENT)
    ensures GetAddress(RemappedEntry(entry, offset, parsed)) == GetAddress(entry)
    ensures GetFlags(RemappedEntry(entry, offset, parsed)) == offset | parsed
  {
  }

  lemma Absorbed(offset: bv64, parsed: bv64)
    ensures offset | parsed == parsed <==> offset & !parsed == 0
  {
  }

  /** A remap of a page that is not present maps the failure value, with every flag set. (No
      parsed flags have bit 5.) */
  lemma RemapOfAbsent(entry: bv64, offset: bv64, parsed: bv64)
    requires parsed & 0x20 == 0 && !HasFlags(entry, PRESENT)
    ensures RemappedEntry(entry, offset, parsed) == NO_ADDRESS && HasFlags(NO_ADDRESS, PRESENT)
    ensures GetFlags(RemappedEntry(entry, offset, parsed)) != parsed
  {
    AllOnes(parsed);
  }

  lemma AllOnes(parsed: bv64)
    requires parsed & 0x20 == 0
    ensures NewEntry(NO_ADDRESS, parsed) == NO_ADDRESS && GetFlags(NO_ADDRESS) != parsed
  {
  }

  /** A remap is right when the new page has the old address and exactly the flags asked for. */
  predicate RemapRight(entry: bv64, remapped: bv64, parsed: bv64)
  {
    GetAddress(remapped) == GetAddress(entry) && GetFlags(remapped) == parsed
  }

  /** It is right exactly when the page is present and the offset has no bit that the flags do not
      have; with a page-aligned old address exactly when the page is present. */
  lemma RemapExact(entry: bv64, offset: bv64, parsed: bv64)
    requires parsed & PAGE_ADDR_MASK == 0 && parsed & 0x20 == 0 && offset <= OFFSET_MASK
    ensures RemapRight(entry, RemappedEntry(entry, offset, parsed), parsed)
            <==> HasFlags(entry, PRESENT) && offset & !parsed == 0
  {
    if HasFlags(entry, PRESENT) {
      RemapMoves(entry, offset, parsed);
      Absorbed(offset, parsed);
    } else {
      RemapOfAbsent(entry, offset, parsed);
    }
  }

  lemma RemapOutcome(entry: bv64, address: nat, flags: bv64)
    requires SmallPage(flags)
    ensures RemapRight(entry, RemappedEntry(entry, OffsetIn(address), ParseFlags(flags)), ParseFlags(flags))
            <==> HasFlags(entry, PRESENT) && OffsetIn(address) & !ParseFlags(flags) == 0
  {
    OffsetSmall(address);
    ParsedFlags(flags);
    RemapExact(entry, OffsetIn(address), ParseFlags(flags));
  }
}

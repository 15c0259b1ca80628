/** The block registry of a node, and its shutdown, which deletes from the table while iterating over it. */
module UbxNode {
  import opened Uthash
  import opened UthashIter

  datatype BlockState = Preinit | Inactive | Active

  /** What the node knows of a block. Prototypes have no prototype; `owned` says that a node has been set. */
  datatype Block = Block(blockType: int, state: BlockState, isInstance: bool, owned: bool)

  const BLOCK_TYPE_COMPUTATION := 1
  const BLOCK_TYPE_INTERACTION := 2
  const ENOSUCHBLOCK := -6

  type BlockTable = HashTable<Block>

  /** The block is no instance that belongs to a node already, is of a known type, and has a fresh name. */
  ghost predicate Admitted(s: seq<Elem<Block>>, key: Key, block: Block) {
    && !(block.isInstance && block.owned)
    && block.blockType in {BLOCK_TYPE_COMPUTATION, BLOCK_TYPE_INTERACTION}
    && forall e :: e in s ==> e.key != key
  }

  /** Registers a block under its name, unless it is not admitted or has types that do not resolve (a nonzero
      `resolved`). An admitted block belongs to the node in either case. */
  method BlockRegister(blocks: BlockTable, block: Elem<Block>, resolved: int) returns (ret: int)
    requires blocks.Valid()
    modifies blocks, blocks.tbl, blocks.items`prev, blocks.items`next, blocks.items`hhPrev, blocks.items`hhNext, block
    ensures blocks.Valid()
    ensures var admitted := Admitted(old(blocks.items), block.key, old(block.value));
            && (ret == if admitted then resolved else -1)
            && blocks.items == old(blocks.items) + (if admitted && resolved == 0 then [block] else [])
            && block.value == if admitted then old(block.value).(owned := true) else old(block.value)
    ensures ret != 0 ==> blocks.tbl == old(blocks.tbl)
  {
    hide HashTable.Valid;
    ret := -1;
    if block.value.isInstance && block.value.owned {
      return;
    }
    if block.value.blockType != BLOCK_TYPE_COMPUTATION && block.value.blockType != BLOCK_TYPE_INTERACTION {
      return;
    }
    var tmpc := blocks.Find(block.key);
    if tmpc != null {
      return;
    }
    block.value := block.value.(owned := true);
    ret := resolved;
    if ret != 0 {
      return;
    }
    blocks.Add(block);
    ret := 0;
  }

  /** An instance whose types once failed to resolve is never registered, whatever it is given later. */
  method RegisterAgain(blocks: BlockTable, block: Elem<Block>, resolved: int, again: int) returns (ret: int)
    requires blocks.Valid() && block.value.isInstance && resolved != 0
    requires Admitted(blocks.items, block.key, block.value)
    modifies blocks, blocks.tbl, blocks.items`prev, blocks.items`next, blocks.items`hhPrev, blocks.items`hhNext, block
    ensures blocks.Valid() && ret == -1 && blocks.items == old(blocks.items)
  {
    hide HashTable.Valid;
    var failed := BlockRegister(blocks, block, resolved);
    ret := BlockRegister(blocks, block, again);
  }

  /** Removes a block by name and returns it, or null if there is none. */
  method BlockUnregister(blocks: BlockTable, name: Key) returns (block: Elem?<Block>, ghost i: nat)
    requires blocks.Valid()
    modifies blocks, blocks.tbl, blocks.items`prev, blocks.items`next, blocks.items`hhPrev, blocks.items`hhNext
    ensures blocks.Valid() && (blocks.tbl == old(blocks.tbl) || blocks.tbl == null)
    ensures block == null ==> blocks.items == old(blocks.items) && forall e :: e in blocks.items ==> e.key != name
    ensures block != null ==> i < |old(blocks.items)| && block == old(blocks.items)[i] && block.key == name &&
                              blocks.items == Without(old(blocks.items), i)
  {
    i := 0;
    block := blocks.Find(name);
    if block != null {
      i := blocks.Delete(block);
    }
  }

  /** Unregisters an instance in state Preinit. */
  method BlockRm(blocks: BlockTable, name: Key) returns (ret: int, ghost i: nat)
    requires blocks.Valid()
    modifies blocks, blocks.tbl, blocks.items`prev, blocks.items`next, blocks.items`hhPrev, blocks.items`hhNext
    ensures blocks.Valid() && (blocks.tbl == old(blocks.tbl) || blocks.tbl == null)
    ensures ret == ENOSUCHBLOCK <==> forall e :: e in old(blocks.items) ==> e.key != name
    ensures ret == 0 ==>
      i < |old(blocks.items)| && old(blocks.items)[i].key == name && blocks.items == Without(old(blocks.items), i)
    ensures ret == 0 ==> forall j :: 0 <= j < |old(blocks.items)| && old(blocks.items)[j].key == name ==> i == j
    ensures ret != 0 ==> blocks.items == old(blocks.items)
    ensures ret == 0 <==>
      exists e :: e in old(blocks.items) && e.key == name && e.value.isInstance && e.value.state == Preinit
  {
    ret, i := -1, 0;
    var b := blocks.Find(name);
    if b == null {
      ret := ENOSUCHBLOCK;
      return;
    }
    OnlyOneOfKey(blocks.items, b);
    if !b.value.isInstance || b.value.state != Preinit {
      return;
    }
    var unregistered;
    unregistered, i := BlockUnregister(blocks, name);
    ret := 0;
  }

  lemma OnlyOneOfKey(s: seq<Elem<Block>>, b: Elem<Block>)
    requires UniqueKeys(s) && b in s
    ensures forall e :: e in s && e.key == b.key ==> e == b
  {}

  // ----- the three passes of the shutdown

  /** The effect of ubx_block_stop and ubx_block_cleanup on the block; other states are refused. */
  function Stopped(b: Block): Block {
    if b.state == Active then b.(state := Inactive) else b
  }

  function CleanedUp(b: Block): Block {
    if b.state == Inactive then b.(state := Preinit) else b
  }

  method BlockStop(b: Elem<Block>) returns (ret: int)
    modifies b`value
    ensures ret == 0 <==> old(b.value.state) == Active
    ensures b.value == Stopped(old(b.value))
  {
    ret := -1;
    if b.value.state == Active {
      b.value := b.value.(state := Inactive);
      ret := 0;
    }
  }

  method BlockCleanup(b: Elem<Block>) returns (ret: int)
    modifies b`value
    ensures ret == 0 <==> old(b.value.state) == Inactive
    ensures b.value == CleanedUp(old(b.value))
  {
    ret := -1;
    if b.value.state == Inactive {
      b.value := b.value.(state := Preinit);
      ret := 0;
    }
  }

  lemma ItemsAreDistinct(blocks: BlockTable)
    requires blocks.Valid()
    ensures Distinct(blocks.items)
  {
    UniqueKeysMakeDistinct(blocks.items);
  }

  lemma AreDistinct(s: seq<Elem<Block>>, i: nat)
    requires Distinct(s) && i < |s|
    ensures forall k :: 0 <= k < |s| && k != i ==> s[k] != s[i]
  {}

  lemma StoppedOtherwise(b: Block)
    ensures b.state != Active ==> Stopped(b) == b
  {}

  lemma CleanedUpOtherwise(b: Block)
    ensures b.state != Inactive ==> CleanedUp(b) == b
  {}

  /** First pass: stops the active blocks. */
  method StopBlocks(blocks: BlockTable)
    requires blocks.Valid()
    modifies blocks.items`value
    ensures blocks.Valid()
    ensures forall e :: e in blocks.items ==> e.value == Stopped(old(e.value))
  {
    hide HashTable.Valid, Stopped, Distinct;
    ghost var s := blocks.items;
    ItemsAreDistinct(blocks);
    var b, btmp := Start(blocks);
    ghost var i := 0;
    while b != null
      invariant blocks.Valid() && s == blocks.items && AtPlace(s, i, b, btmp)
      invariant forall k :: 0 <= k < |s| ==> s[k].value == if k < i then Stopped(old(s[k].value)) else old(s[k].value)
      decreases |s| - i
    {
      StoppedOtherwise(b.value);
      AreDistinct(s, i);
      if b.value.state == Active {
        var ret := BlockStop(b);
      }
      b := btmp;
      btmp := Fetch(blocks, btmp, i + 1);
      i := i + 1;
    }
  }

  /** Second pass: brings the inactive blocks back to Preinit. */
  method CleanupBlocks(blocks: BlockTable)
    requires blocks.Valid()
    modifies blocks.items`value
    ensures blocks.Valid()
    ensures forall e :: e in blocks.items ==> e.value == CleanedUp(old(e.value))
  {
    hide HashTable.Valid, CleanedUp, Distinct;
    ghost var s := blocks.items;
    ItemsAreDistinct(blocks);
    var b, btmp := Start(blocks);
    ghost var i := 0;
    while b != null
      invariant blocks.Valid() && s == blocks.items && AtPlace(s, i, b, btmp)
      invariant forall k :: 0 <= k < |s| ==> s[k].value == if k < i then CleanedUp(old(s[k].value)) else old(s[k].value)
      decreases |s| - i
    {
      CleanedUpOtherwise(b.value);
      AreDistinct(s, i);
      if b.value.state == Inactive {
        var ret := BlockCleanup(b);
      }
      b := btmp;
      btmp := Fetch(blocks, btmp, i + 1);
      i := i + 1;
    }
  }

  /** The instances that the third pass is to remove. */
  ghost function Removable(s: seq<Elem<Block>>): set<Elem<Block>>
    reads s`value
  {
    set b | b in s && b.value.isInstance && b.value.state == Preinit
  }

  /** Those to go are the instances in state Preinit. */
  ghost predicate Marked(all: set<Elem<Block>>, gone: set<Elem<Block>>)
    reads all`value
  {
    forall e :: e in all ==> (e in gone <==> e.value.isInstance && e.value.state == Preinit)
  }

  /** Third pass: removes the instances in state Preinit from the table that it iterates over. */
  method RemoveInstances(blocks: BlockTable)
    requires blocks.Valid()
    modifies blocks, blocks.tbl, blocks.items`prev, blocks.items`next, blocks.items`hhPrev, blocks.items`hhNext
    ensures blocks.Valid() && blocks.items == Remaining(old(blocks.items), old(Removable(blocks.items)))
  {
    hide Remaining, Removable, First, Second, Members, HashTable.Valid, AtPlace, Marked;
    ghost var all, gone := Members(blocks.items), Removable(blocks.items);
    var b, btmp := Start(blocks);
    BeforeRemoving(blocks.items, gone, b, btmp);
    RemoveMarked(blocks, b, btmp, all, gone);
  }

  /** The loop of the pass. */
  method RemoveMarked(blocks: BlockTable, b0: Elem?<Block>, btmp0: Elem?<Block>, ghost all: set<Elem<Block>>,
                      ghost gone: set<Elem<Block>>)
    requires blocks.Valid() && b0 == First(blocks.items) && btmp0 == Second(blocks.items)
    requires Members(blocks.items) <= all && Marked(all, gone)
    modifies blocks, blocks.tbl, all`prev, all`next, all`hhPrev, all`hhNext
    ensures blocks.Valid() && blocks.items == Remaining(old(blocks.items), gone)
  {
    hide Remaining, First, Second, Members, HashTable.Valid, Marked;
    ghost var s := blocks.items;
    ghost var kept, rest := [], s;
    var b, btmp := b0, btmp0;
    AllRemaining(s, gone);
    while b != null
      invariant blocks.Valid() && blocks.items == kept + rest && b == First(rest) && btmp == Second(rest)
      invariant blocks.tbl == old(blocks.tbl) || blocks.tbl == null
      invariant Members(blocks.items) <= all && Marked(all, gone)
      invariant kept + Remaining(rest, gone) == Remaining(s, gone)
      decreases |rest|
    {
      FirstIsPresent(kept, rest);
      kept, rest := Visit(blocks, b, kept, rest, all, gone);
      b := btmp;
      btmp := NextOf(blocks, btmp, kept, rest);
    }
    NothingRemains(kept, rest, gone);
  }

  lemma BeforeRemoving(s: seq<Elem<Block>>, gone: set<Elem<Block>>, b: Elem?<Block>, btmp: Elem?<Block>)
    requires gone == Removable(s) && AtPlace(s, 0, b, btmp)
    ensures b == First(s) && btmp == Second(s)
    ensures Marked(Members(s), gone) && forall e :: e in Members(s) ==> e in s
  {
    StartOf(s, b, btmp);
  }

  /** The body of the pass at the block after the kept ones. */
  method Visit(blocks: BlockTable, b: Elem<Block>, ghost kept: seq<Elem<Block>>, ghost rest: seq<Elem<Block>>,
               ghost all: set<Elem<Block>>, ghost gone: set<Elem<Block>>)
    returns (ghost kept': seq<Elem<Block>>, ghost rest': seq<Elem<Block>>)
    requires blocks.Valid() && blocks.items == kept + rest && rest != [] && rest[0] == b && Members(blocks.items) <= all
    requires Marked(all, gone)
    modifies blocks, blocks.tbl, all`prev, all`next, all`hhPrev, all`hhNext
    ensures blocks.Valid() && blocks.items == kept' + rest' && rest' == rest[1..] && Members(blocks.items) <= all
    ensures blocks.tbl == old(blocks.tbl) || blocks.tbl == null
    ensures kept' + Remaining(rest', gone) == kept + Remaining(rest, gone) && Marked(all, gone)
  {
    hide Remaining, HashTable.Valid, Without, Members;
    ghost var before := blocks.items;
    RemainingStep(kept, rest, gone);
    MembersWithin(before, all);
    if b.value.state == Preinit && b.value.isInstance {
      var ret;
      ghost var i;
      ret, i := BlockRm(blocks, b.key);
      assert i == |kept|;
      kept', rest' := kept, rest[1..];
    } else {
      kept', rest' := kept + [b], rest[1..];
    }
  }

  // ----- the whole shutdown

  /** The blocks created from a prototype. */
  ghost function Instances(s: seq<Elem<Block>>): set<Elem<Block>>
    reads s`value
  {
    set b | b in s && b.value.isInstance
  }

  /** The first two passes: every block comes to Preinit. */
  method Deactivate(blocks: BlockTable)
    requires blocks.Valid()
    modifies blocks.items`value
    ensures blocks.Valid()
    ensures forall e :: e in blocks.items ==> e.value == old(e.value).(state := Preinit)
  {
    hide HashTable.Valid;
    StopBlocks(blocks);
    CleanupBlocks(blocks);
  }

  /** Shuts the node's blocks down: exactly the prototypes stay registered, in their old order, all of them
      in state Preinit. */
  method NodeCleanup(blocks: BlockTable)
    requires blocks.Valid()
    modifies blocks, blocks.tbl, blocks.items`prev, blocks.items`next, blocks.items`hhPrev, blocks.items`hhNext
    modifies blocks.items`value
    ensures blocks.Valid() && blocks.items == Remaining(old(blocks.items), old(Instances(blocks.items)))
    ensures forall e :: e in blocks.items <==> e in old(blocks.items) && !old(e.value.isInstance)
    ensures forall e :: e in blocks.items ==> e.value == old(e.value).(state := Preinit)
  {
    hide Remaining, HashTable.Valid;
    ghost var s := blocks.items;
    Deactivate(blocks);
    ghost var gone := Removable(s);
    assert gone == old(Instances(s));
    assert forall e :: e in s ==> (e in gone <==> old(e.value.isInstance));
    assert forall e :: e in s ==> e.value == old(e.value).(state := Preinit);
    RemoveInstances(blocks);
    RemainingElements(s, gone);
    assert forall e :: e in s ==> e.value == old(e.value).(state := Preinit);
  }
}

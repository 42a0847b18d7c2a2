/** Spawning in the richer variant: a bean into the first free slot of the pool (pink or green),
    and the repair angel toward a destroyed block. The values `rand()` would supply are passed in
    as a Roll. */
module Spawn {
  import opened Arena
  import opened Scan
  import opened GameState

  /** The three `rand()` results one bean spawn consumes: its column, its speed percentage and the
      pink draw. Only their remainders matter, exactly as in the source. */
  datatype Roll = Roll(column: nat, speed: nat, pink: nat)

  /** `find_destroyed_block`: the lowest column whose block is missing and not already being
      repaired, or -1. */
  function FindDestroyedBlock(blocks: seq<Block>): (k: int)
    ensures -1 <= k < |blocks|
    ensures 0 <= k ==> !blocks[k].present && !blocks[k].repairing
    ensures forall j :: 0 <= j < |blocks| && (k < 0 || j < k) ==> blocks[j].present || blocks[j].repairing
  {
    FirstWhere(blocks, (b: Block) => !b.present && !b.repairing)
  }

  /** The lowest free slot of the bean pool, or -1 when all five beans are in play. */
  function FreeSlot(beans: seq<Bean>): (k: int)
    ensures -1 <= k < |beans|
    ensures 0 <= k ==> !beans[k].active
    ensures forall j :: 0 <= j < |beans| && (k < 0 || j < k) ==> beans[j].active
  {
    FirstWhere(beans, (b: Bean) => !b.active)
  }

  /** The bean the roll produces: at the top of column `column % 20`, speed multiplier
      `(speed % 100) / 100 + 0.5`, pink only when some block is waiting for repair and the pink
      draw (two chances in five) succeeds. */
  function NewBean(blocks: seq<Block>, roll: Roll): (b: Bean)
    ensures b.active && !b.caught && b.y == 0.0
    ensures Trunc(b.x) == roll.column % Width && b.x == Trunc(b.x) as real + 0.5
    ensures 0.5 <= b.x <= Width as real - 0.5
    ensures 0.5 <= b.speed < 1.5
    ensures b.color == Pink <==> FindDestroyedBlock(blocks) >= 0 && roll.pink % 5 < 2
  {
    var color := if FindDestroyedBlock(blocks) >= 0 && roll.pink % 5 < 2 then Pink else Green;
    Bean((roll.column % Width) as real + 0.5, 0.0, (roll.speed % 100) as real / 100.0 + 0.5,
         true, false, color)
  }

  /** `spawn_bean`: claim the lowest free slot for a new bean; with every slot busy the spawn is
      dropped. */
  function SpawnBean(beans: seq<Bean>, blocks: seq<Block>, roll: Roll): (r: seq<Bean>)
    ensures |r| == |beans|
    ensures FreeSlot(beans) < 0 ==> r == beans
    ensures var k := FreeSlot(beans);
      0 <= k ==> r[k] == NewBean(blocks, roll) && forall j :: 0 <= j < |beans| && j != k ==> r[j] == beans[j]
  {
    var k := FreeSlot(beans);
    if k < 0 then beans else beans[k := NewBean(blocks, roll)]
  }

  /** `spawn_angel`: send the angel from the top of the grid toward block `index` and mark that
      block as under repair; nothing happens for an index off the ledge, a block that stands or is
      already being repaired, or while the angel is active. */
  function SpawnAngel(blocks: seq<Block>, angel: Angel, index: int): (r: (seq<Block>, Angel))
    requires |blocks| == Width
    ensures |r.0| == Width
    ensures (!(0 <= index < Width) || blocks[index].present || blocks[index].repairing || angel.active)
            ==> r == (blocks, angel)
    ensures 0 <= index < Width && !blocks[index].present && !blocks[index].repairing && !angel.active ==>
      && r.1 == Angel(true, index as real + 0.5, 0.0, index, false)
      && r.0 == blocks[index := Block(false, true)]
    ensures RepairConsistent(blocks, angel) ==> RepairConsistent(r.0, r.1)
  {
    if index < 0 || index >= Width then (blocks, angel)
    else if blocks[index].present || blocks[index].repairing then (blocks, angel)
    else if angel.active then (blocks, angel)
    else (blocks[index := blocks[index].(repairing := true)], Angel(true, index as real + 0.5, 0.0, index, false))
  }

  /** A spawned angel always targets a block FindDestroyedBlock reported, so catching a pink bean
      while a block is missing and the angel is idle starts exactly one repair. */
  lemma SpawnAngelOnDestroyed(blocks: seq<Block>, angel: Angel)
    requires |blocks| == Width
    requires RepairConsistent(blocks, angel)
    requires !angel.active
    requires FindDestroyedBlock(blocks) >= 0
    ensures var k := FindDestroyedBlock(blocks); var r := SpawnAngel(blocks, angel, k);
      && r.1.active && r.1.target == k
      && r.0[k].repairing
      && forall i :: 0 <= i < Width && i != k ==> !r.0[i].repairing
  {
  }
}

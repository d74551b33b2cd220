/**
 * The NPC pool: a list of spawned NPCs capped at `maxNPCs`, of which the
 * first `activeNPCCount` are active.  A spawn request reactivates the next
 * pooled NPC or appends a new one; a despawn request deactivates the last
 * active one.  Positions, prefabs and logging are not modelled.
 */
module SpawnModel {

  /** A pooled NPC: the number in its name `NPC_<id>` and whether it is active. */
  datatype Npc = Npc(id: nat, active: bool)

  /**
   * The pool's invariant: the count is within the list, the list within the
   * cap, NPCs are numbered from 1 in list order, and exactly the first
   * `count` are active.
   */
  ghost predicate PoolInvariant(npcs: seq<Npc>, count: int, max: int)
  {
    0 <= count <= |npcs| <= max &&
    (forall i :: 0 <= i < |npcs| ==> npcs[i].id == i + 1) &&
    (forall i :: 0 <= i < |npcs| ==> (npcs[i].active <==> i < count))
  }

  /** `Mathf.Min` on integers. */
  function Min(a: int, b: int): (r: int)
    ensures r <= a && r <= b && (r == a || r == b)
  {
    if a < b then a else b
  }

  /** The list after `SpawnNPC` appends a new inactive NPC. */
  function Appended(npcs: seq<Npc>): (r: seq<Npc>)
    ensures |r| == |npcs| + 1 && r[..|npcs|] == npcs
    ensures r[|npcs|] == Npc(|npcs| + 1, false)
  {
    npcs + [Npc(|npcs| + 1, false)]
  }

  /** The pool a spawn request draws from: the list itself, or the list with a new NPC when all are in use. */
  function Pooled(npcs: seq<Npc>, count: nat): (r: seq<Npc>)
    requires count <= |npcs|
    ensures npcs <= r && count < |r|
    ensures |r| == |npcs| + 1 <==> count == |npcs|
    ensures |r| <= |npcs| + 1
  {
    if count < |npcs| then npcs else Appended(npcs)
  }

  /** The list after a successful spawn request: the NPC at `count` in the pool is active. */
  function Spawned(npcs: seq<Npc>, count: nat): (r: seq<Npc>)
    requires count <= |npcs|
    ensures |r| == |Pooled(npcs, count)| && count < |r|
  {
    var pool := Pooled(npcs, count);
    pool[count := pool[count].(active := true)]
  }

  /** The list after a successful despawn request: the NPC at `count - 1` is inactive. */
  function Despawned(npcs: seq<Npc>, count: nat): (r: seq<Npc>)
    requires 0 < count <= |npcs|
    ensures |r| == |npcs|
  {
    npcs[count - 1 := npcs[count - 1].(active := false)]
  }

  /** `count` fresh inactive NPCs numbered after the first `from`. */
  function Fresh(from: nat, count: nat): (r: seq<Npc>)
    ensures |r| == count
    ensures forall i :: 0 <= i < count ==> r[i] == Npc(from + i + 1, false)
    decreases count
  {
    if count == 0 then [] else Fresh(from, count - 1) + [Npc(from + count, false)]
  }

  /** Appending a new NPC keeps the invariant while below the cap. */
  lemma AppendKeepsInvariant(npcs: seq<Npc>, count: int, max: int)
    requires PoolInvariant(npcs, count, max) && |npcs| < max
    ensures PoolInvariant(Appended(npcs), count, max)
  {
  }

  /** A successful spawn keeps the invariant with the count one higher. */
  lemma SpawnKeepsInvariant(npcs: seq<Npc>, count: nat, max: int)
    requires PoolInvariant(npcs, count, max) && count < max
    ensures PoolInvariant(Spawned(npcs, count), count + 1, max)
  {
  }

  /** A successful despawn keeps the invariant with the count one lower. */
  lemma DespawnKeepsInvariant(npcs: seq<Npc>, count: nat, max: int)
    requires PoolInvariant(npcs, count, max) && 0 < count
    ensures PoolInvariant(Despawned(npcs, count), count - 1, max)
  {
  }

  /** Despawning right after a spawn gives back the pool the spawn drew from. */
  lemma DespawnUndoesSpawn(npcs: seq<Npc>, count: nat, max: int)
    requires PoolInvariant(npcs, count, max) && count < max
    ensures Despawned(Spawned(npcs, count), count + 1) == Pooled(npcs, count)
  {
  }

  /** Spawning right after a despawn restores the list exactly: the pool never shrinks. */
  lemma SpawnUndoesDespawn(npcs: seq<Npc>, count: nat, max: int)
    requires PoolInvariant(npcs, count, max) && 0 < count
    ensures Spawned(Despawned(npcs, count), count - 1) == npcs
  {
  }

  class SpawnManager {
    /** How many NPCs to create at start; clamped to the cap by `InitializeNPCs`. */
    var initialNPCs: int
    /** The pool's cap. */
    const maxNPCs: int
    /** Every NPC created so far, in creation order. */
    var spawnedNPCs: seq<Npc>
    /** How many NPCs are active: always the first ones in the list. */
    var activeNPCCount: int

    ghost predicate Valid()
      reads this
    {
      PoolInvariant(spawnedNPCs, activeNPCCount, maxNPCs)
    }

    /** The serialized settings and the field initialisers: an empty pool. */
    constructor (initialNPCs: int, maxNPCs: int)
      requires 0 <= maxNPCs
      ensures Valid()
      ensures this.initialNPCs == initialNPCs && this.maxNPCs == maxNPCs
      ensures spawnedNPCs == [] && activeNPCCount == 0
    {
      this.initialNPCs := initialNPCs;
      this.maxNPCs := maxNPCs;
      spawnedNPCs := [];
      activeNPCCount := 0;
    }

    /**
     * Clamps `initialNPCs` to the cap and calls `SpawnNPC` that many times:
     * the list grows by that many inactive NPCs, short of the cap.
     */
    method InitializeNPCs()
      requires Valid()
      modifies this`initialNPCs, this`spawnedNPCs
      ensures Valid()
      ensures initialNPCs == Min(old(initialNPCs), maxNPCs)
      ensures activeNPCCount == old(activeNPCCount)
      ensures |spawnedNPCs| == Min(|old(spawnedNPCs)| + (if initialNPCs < 0 then 0 else initialNPCs), maxNPCs)
      ensures spawnedNPCs == old(spawnedNPCs) + Fresh(|old(spawnedNPCs)|, |spawnedNPCs| - |old(spawnedNPCs)|)
    {
      initialNPCs := Min(initialNPCs, maxNPCs);
      ghost var start := spawnedNPCs;
      ghost var clamped := initialNPCs;
      var i := 0;
      while i < initialNPCs
        invariant initialNPCs == clamped
        invariant Valid()
        invariant activeNPCCount == old(activeNPCCount)
        invariant 0 <= i <= (if clamped < 0 then 0 else clamped)
        invariant |spawnedNPCs| == Min(|start| + i, maxNPCs)
        invariant spawnedNPCs == start + Fresh(|start|, |spawnedNPCs| - |start|)
      {
        ghost var before := spawnedNPCs;
        var grew := SpawnNPC(true);
        if grew {
          assert spawnedNPCs == start + (Fresh(|start|, |before| - |start|) + [Npc(|before| + 1, false)]);
        }
        i := i + 1;
      }
    }

    /**
     * Appends one inactive NPC named after the new list length, unless the
     * list is already at the cap.  `init` only selects logging.
     */
    method SpawnNPC(init: bool) returns (succeed: bool)
      requires Valid()
      modifies this`spawnedNPCs
      ensures Valid()
      ensures succeed <==> |old(spawnedNPCs)| < maxNPCs
      ensures spawnedNPCs == if succeed then Appended(old(spawnedNPCs)) else old(spawnedNPCs)
    {
      succeed := false;
      if |spawnedNPCs| >= maxNPCs {
        return;
      }
      AppendKeepsInvariant(spawnedNPCs, activeNPCCount, maxNPCs);
      spawnedNPCs := spawnedNPCs + [Npc(|spawnedNPCs| + 1, false)];
      succeed := true;
    }

    /**
     * Spawn (`isSpawning`) or despawn one NPC.  A spawn reactivates the
     * pooled NPC at `activeNPCCount` when there is one and it is inactive,
     * otherwise it appends one through `SpawnNPC`; a despawn deactivates the
     * NPC at the decremented count.  `count` is the count afterwards.
     */
    method RecallSpawnNPC(isSpawning: bool) returns (succeed: bool, count: int)
      requires Valid()
      modifies this`spawnedNPCs, this`activeNPCCount
      ensures Valid()
      ensures count == activeNPCCount
      ensures isSpawning ==> (succeed <==> old(activeNPCCount) < maxNPCs)
      ensures !isSpawning ==> (succeed <==> old(activeNPCCount) > 0)
      ensures !succeed ==> spawnedNPCs == old(spawnedNPCs) && activeNPCCount == old(activeNPCCount)
      ensures succeed && isSpawning ==>
        spawnedNPCs == Spawned(old(spawnedNPCs), old(activeNPCCount)) &&
        activeNPCCount == old(activeNPCCount) + 1
      ensures succeed && !isSpawning ==>
        spawnedNPCs == Despawned(old(spawnedNPCs), old(activeNPCCount)) &&
        activeNPCCount == old(activeNPCCount) - 1
    {
      succeed := false;
      count := activeNPCCount;
      if isSpawning {
        if count == maxNPCs {
          return;
        }
        if count < |spawnedNPCs| && !spawnedNPCs[count].active {
          succeed := true;
        } else {
          succeed := SpawnNPC(false);
        }
        if succeed {
          SpawnKeepsInvariant(old(spawnedNPCs), count, maxNPCs);
          spawnedNPCs := spawnedNPCs[count := spawnedNPCs[count].(active := true)];
          activeNPCCount := activeNPCCount + 1;
          count := activeNPCCount;
        }
      } else {
        if count == 0 {
          return;
        }
        activeNPCCount := activeNPCCount - 1;
        count := activeNPCCount;
        if count >= 0 && spawnedNPCs[count].active {
          succeed := true;
          DespawnKeepsInvariant(spawnedNPCs, count + 1, maxNPCs);
          spawnedNPCs := spawnedNPCs[count := spawnedNPCs[count].(active := false)];
        }
      }
    }
  }
}

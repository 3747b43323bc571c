/** The forced resynchronisation after a dropped branch (fork_resolver.go), on the real block files. */
module Resync {
  import opened Options
  import opened Uint64
  import opened FlatFile
  import ForkChoice

  /** Checkpoint file, block store, its recorded height, and the head of the chain in memory. */
  class LocalNode {
    const store: BlockStore
    const verifies: bool        // blocks are read with verification
    var checkpoint: Option<ForkChoice.Checkpoint>
    var latestHeight: uint64    // meta:latest_height
    var chainHeight: uint64

    constructor (store: BlockStore, verifies: bool, latestHeight: uint64, chainHeight: uint64)
      ensures this.store == store && this.verifies == verifies && checkpoint == None
      ensures this.latestHeight == latestHeight && this.chainHeight == chainHeight
    {
      this.store, this.verifies, checkpoint := store, verifies, None;
      this.latestHeight, this.chainHeight := latestHeight, chainHeight;
    }

    /** The files return a block at height `h`. */
    ghost predicate Finds(h: nat)
      reads store
      requires store.Shape()
    {
      if verifies then ReadVerified(store.sha, store.ChunksOf(), h).Some? else Read(store.ChunksOf(), h).Some?
    }

    /** GetBlockByHeight, as far as it tells whether there is a block. */
    method GetBlockByHeight(h: nat) returns (found: bool)
      requires store.Shape()
      ensures found <==> Finds(h)
      ensures store.Valid() ==> (found <==> h in store.blocks)
    {
      hide Read, ReadVerified;
      var r;
      if verifies {
        r := store.ReadBlockWithVerify(h);
      } else {
        r := store.ReadBlock(h);
      }
      found := r.Some?;
    }

    /** RollbackToHeight: refused, without effect, above the head. */
    method RollbackToHeight(target: uint64)
      modifies this`chainHeight
      ensures chainHeight == if target < old(chainHeight) then target else old(chainHeight)
    {
      if target > chainHeight || target == chainHeight {
        return;
      }
      chainHeight := target;
    }

    /**
     ForceResyncFromPeer. The recorded height becomes the rollback height whether or not a block can be
     read there; the chain goes to that block if it can, else to block 1, else nowhere. Recorded height
     and chain head agree afterwards if and only if the block is there and not above the old head.
     Where the cut is safe, a block can be read exactly if it was stored; where the rollback block is
     missing in the chunk of block 1, block 1 is lost and the resync fails. A wrapped rollback height
     cuts no block, is recorded as the latest height, and sends the chain to block 1: with heights 150
     and 100 and interval 1000, the recorded height is 2^64 - 900.
     */
    method ForceResyncFromPeer(peerHeight: uint64, interval: uint64)
      returns (ok: bool, rollback: uint64, requestFrom: uint64)
      requires store.Valid()
      modifies this, store
      ensures checkpoint == None && latestHeight == rollback && store.Shape()
      ensures
        store.ChunksOf() ==
        if UpTo(old(store.blocks), rollback) then old(store.ChunksOf())
        else DeleteAbove(old(store.ChunksOf()), rollback)
      ensures ok <==> Finds(rollback) || Finds(1)
      ensures !ok ==> chainHeight == old(chainHeight)
      ensures
        var target: uint64 := if Finds(rollback) then rollback else 1;
        ok ==> chainHeight == (if target < old(chainHeight) then target else old(chainHeight))
               && requestFrom == Add(target, 1)
      ensures ok && old(chainHeight) >= 1 ==>
                (latestHeight == chainHeight <==> Finds(rollback) && rollback <= old(chainHeight))
      ensures Safe(old(store.ChunksOf()), old(store.blocks), DeleteAboveHeight(rollback)) ==>
                store.Valid() && (ok <==> rollback in old(store.blocks) || 1 in old(store.blocks))
      ensures CutsBlockOne(old(store.blocks), rollback) && (verifies || |old(store.blocks)[1]| > HASH) ==> !ok
      ensures ForkChoice.Wraps(old(chainHeight), peerHeight, interval)
              && Below(old(store.blocks), TWO_64 - (interval - peerHeight)) ==>
                && store.ChunksOf() == old(store.ChunksOf()) && latestHeight == TWO_64 - (interval - peerHeight)
                && (ok <==> 1 in old(store.blocks)) && (ok ==> chainHeight == 1)
    {
      hide Finds, Safe, DeleteAbove, CutsBlockOne, Below, UpTo, Holds, Aligned, ChunksIn;
      rollback := ForkChoice.RollbackHeight(chainHeight, peerHeight, interval);
      checkpoint := None;
      CutStore(rollback);
      ok, requestFrom := GoToBlock(rollback);
    }

    /** Database.DeleteBlocksAboveHeight, and which blocks can be read afterwards. */
    method CutStore(target: uint64)
      requires store.Valid() && target >= 1
      modifies this`latestHeight, store
      ensures latestHeight == target && store.Shape()
      ensures
        store.ChunksOf() ==
        if UpTo(old(store.blocks), target) then old(store.ChunksOf()) else DeleteAbove(old(store.ChunksOf()), target)
      ensures Safe(old(store.ChunksOf()), old(store.blocks), DeleteAboveHeight(target)) ==>
                && store.Valid() && (Finds(target) <==> target in old(store.blocks))
                && (Finds(1) <==> 1 in old(store.blocks))
      ensures CutsBlockOne(old(store.blocks), target) && (verifies || |old(store.blocks)[1]| > HASH) ==>
                !Finds(target) && !Finds(1)
      ensures Below(old(store.blocks), target) ==>
                store.ChunksOf() == old(store.ChunksOf()) && !Finds(target) && (Finds(1) <==> 1 in old(store.blocks))
    {
      hide Read, ReadVerified, DeleteAbove, ChunkStart, EndsBy, Restrict, Holds;
      ghost var before, blocks := store.ChunksOf(), store.blocks;
      store.DeleteBlocksAboveHeight(target);
      latestHeight := target;
      RestrictKeeps(blocks, target);
      if store.Valid() {
        ReadsAgree(store.sha, store.ChunksOf(), store.blocks, target);
        ReadsAgree(store.sha, store.ChunksOf(), store.blocks, 1);
      }
      if CutsBlockOne(blocks, target) {
        MissingTargetUnreadable(store.sha, before, blocks, target, 1);
      }
    }

    /** Steps 3 and 5: the chain goes to the rollback block, or else to block 1. */
    method GoToBlock(rollback: uint64) returns (ok: bool, requestFrom: uint64)
      requires store.Shape()
      modifies this`chainHeight
      ensures ok <==> Finds(rollback) || Finds(1)
      ensures !ok ==> chainHeight == old(chainHeight)
      ensures
        var target: uint64 := if Finds(rollback) then rollback else 1;
        ok ==> chainHeight == (if target < old(chainHeight) then target else old(chainHeight))
               && requestFrom == Add(target, 1)
    {
      hide Finds;
      requestFrom := 0;
      var target := rollback;
      var found := GetBlockByHeight(target);
      if !found {
        target := 1;
        found := GetBlockByHeight(target);
        if !found {
          return false, requestFrom;
        }
      }
      RollbackToHeight(target);
      requestFrom := Add(target, 1);
      ok := true;
    }
  }

  /** The rollback block is missing in the chunk of block 1, and there is something to delete above it. */
  ghost predicate CutsBlockOne(m: Blocks, rollback: nat) {
    1 in m && 1 <= rollback && rollback !in m && !UpTo(m, rollback) && ChunkStart(rollback) == ChunkStart(1)
  }

  ghost predicate Below(m: Blocks, bound: int) {
    forall h :: h in m ==> h < bound
  }

  lemma RestrictKeeps(m: Blocks, t: nat)
    requires t >= 1
    ensures (t in Restrict(m, t) <==> t in m) && (1 in Restrict(m, t) <==> 1 in m)
  {
  }
}

/** The arena: it cuts regions out of blocks and frees the blocks only with itself. Addresses are natural
    numbers, 0 being null. */
module Arenas {
  const BLOCK_SIZE: nat := 4096
  const ALIGN: nat := 8
  const ADDRESS_SIZE: nat := 8

  datatype Region = Region(base: nat, size: nat) {
    /** No address is in both regions. */
    predicate Apart(other: Region) {
      size == 0 || other.size == 0 || base + size <= other.base || other.base + other.size <= base
    }

    predicate Inside(block: Region) {
      block.base <= base && base + size <= block.base + block.size
    }
  }

  ghost predicate AllApart(s: seq<Region>) {
    forall i, j :: 0 <= i < j < |s| ==> s[i].Apart(s[j])
  }

  function TotalSize(s: seq<Region>): nat {
    if s == [] then 0 else TotalSize(s[..|s| - 1]) + s[|s| - 1].size
  }

  lemma TotalSizeAppend(s: seq<Region>, r: Region)
    ensures TotalSize(s + [r]) == TotalSize(s) + r.size
  {
    assert (s + [r])[..|s|] == s;
  }

  class Arena {
    var allocPtr: nat
    var allocBytesRemaining: nat
    var blocks: seq<nat>
    var memoryUsage: nat
    ghost var owned: seq<Region>   // the blocks, with their sizes
    ghost var current: int         // the block that small requests are cut from, -1 if there is none
    ghost var handed: seq<Region>  // every region handed out

    /** The unused tail of the current block. */
    ghost function Tail(): Region
      reads this`allocPtr, this`allocBytesRemaining
    {
      Region(allocPtr, allocBytesRemaining)
    }

    ghost predicate Owning()
      reads this`blocks, this`owned, this`memoryUsage
    {
      && |blocks| == |owned| && AllApart(owned)
      && (forall i :: 0 <= i < |owned| ==> owned[i].base == blocks[i] > 0)
      && memoryUsage == TotalSize(owned) + ADDRESS_SIZE * |owned|
    }

    ghost predicate TailValid()
      reads this`allocPtr, this`allocBytesRemaining, this`owned, this`current
    {
      && -1 <= current < |owned|
      && if current == -1 then allocPtr == 0 && allocBytesRemaining == 0
         else Tail().Inside(owned[current]) && allocPtr + allocBytesRemaining == owned[current].base + owned[current].size
    }

    ghost predicate HandedValid()
      reads this
    {
      && AllApart(handed)
      && (forall i :: 0 <= i < |handed| ==> handed[i].Apart(Tail()))
      && (forall i :: 0 <= i < |handed| && handed[i].size > 0 ==> exists b :: 0 <= b < |owned| && handed[i].Inside(owned[b]))
    }

    ghost predicate Valid()
      reads this
    {
      Owning() && TailValid() && HandedValid()
    }

    /** Every block starts at a multiple of the alignment. */
    ghost predicate BlocksAligned()
      reads this
    {
      forall i :: 0 <= i < |blocks| ==> blocks[i] % ALIGN == 0
    }

    constructor ()
      ensures Valid() && handed == [] && blocks == [] && memoryUsage == 0 && allocPtr == 0 && allocBytesRemaining == 0
    {
      allocPtr, allocBytesRemaining, blocks, memoryUsage := 0, 0, [], 0;
      owned, current, handed := [], -1, [];
    }

    static function NewSize(bytes: nat): nat {
      if bytes > BLOCK_SIZE / 4 then bytes else BLOCK_SIZE
    }

    /** What a request that the tail has no room for adds to the memory usage: large ones are given a
        block of their own. */
    static function Cost(bytes: nat): (c: nat)
      ensures c == if bytes <= 1024 then 4104 else bytes + 8
    {
      NewSize(bytes) + ADDRESS_SIZE
    }

    /** Operator new may place a block of this size at this address. */
    ghost predicate CanPlace(at: nat, size: nat)
      reads this`owned
    {
      at > 0 && forall i :: 0 <= i < |owned| ==> owned[i].Apart(Region(at, size))
    }

    method AllocateNewBlock(blockBytes: nat, at: nat) returns (result: nat)
      requires Owning() && CanPlace(at, blockBytes)
      modifies this`blocks, this`memoryUsage, this`owned
      ensures Owning() && result == at && blocks == old(blocks) + [at] && owned == old(owned) + [Region(at, blockBytes)]
    {
      TotalSizeAppend(owned, Region(at, blockBytes));
      result := at;
      blocks := blocks + [result];
      memoryUsage := memoryUsage + (blockBytes + ADDRESS_SIZE);
      owned := owned + [Region(at, blockBytes)];
    }

    /** Cuts a region off the tail. */
    method Cut(slop: nat, bytes: nat) returns (result: nat)
      requires Valid() && slop + bytes <= allocBytesRemaining
      modifies this`allocPtr, this`allocBytesRemaining, this`handed
      ensures Valid() && result == old(allocPtr) + slop && handed == old(handed) + [Region(result, bytes)]
      ensures allocPtr == result + bytes && allocBytesRemaining == old(allocBytesRemaining) - slop - bytes
    {
      ghost var tail := Tail();
      result := allocPtr + slop;
      allocPtr := allocPtr + (slop + bytes);
      allocBytesRemaining := allocBytesRemaining - (slop + bytes);
      assert Region(result, bytes).Inside(tail) && Tail().Inside(tail);
      handed := handed + [Region(result, bytes)];
    }

    /** What is handed out, and the tail, are apart from any new block. */
    lemma NewBlockApart(at: nat, size: nat)
      requires Valid() && CanPlace(at, size)
      ensures forall i :: 0 <= i < |handed| ==> handed[i].Apart(Region(at, size))
      ensures Tail().Apart(Region(at, size))
    {
    }

    /** Hands out a whole new block. */
    method OwnBlock(bytes: nat, at: nat) returns (result: nat)
      requires Valid() && bytes > 0 && CanPlace(at, bytes)
      modifies this
      ensures Valid() && result == at && handed == old(handed) + [Region(result, bytes)] && Tail() == old(Tail())
      ensures blocks == old(blocks) + [at] && owned == old(owned) + [Region(at, bytes)] && current == old(current)
    {
      hide Owning, TotalSize;
      NewBlockApart(at, bytes);
      result := AllocateNewBlock(bytes, at);
      assert owned[|owned| - 1] == Region(at, bytes);
      handed := handed + [Region(result, bytes)];
      assert TailValid() && Owning();
      forall i | 0 <= i < |old(handed)| && handed[i].size > 0
        ensures exists b :: 0 <= b < |owned| && handed[i].Inside(owned[b])
      {
        var b :| 0 <= b < |old(owned)| && handed[i].Inside(old(owned)[b]);
        assert handed[i].Inside(owned[b]);
      }
    }

    /** Gives up the tail for a new current block. */
    method StartBlock(at: nat)
      requires Valid() && CanPlace(at, BLOCK_SIZE)
      modifies this
      ensures Valid() && handed == old(handed) && Tail() == Region(at, BLOCK_SIZE)
      ensures blocks == old(blocks) + [at] && owned == old(owned) + [Region(at, BLOCK_SIZE)] && current == |owned| - 1
    {
      hide Owning, TotalSize;
      NewBlockApart(at, BLOCK_SIZE);
      allocPtr := AllocateNewBlock(BLOCK_SIZE, at);
      allocBytesRemaining := BLOCK_SIZE;
      current := |owned| - 1;
      assert TailValid() && Owning();
      forall i | 0 <= i < |old(handed)| && handed[i].size > 0
        ensures exists b :: 0 <= b < |owned| && handed[i].Inside(owned[b])
      {
        var b :| 0 <= b < |old(owned)| && handed[i].Inside(old(owned)[b]);
        assert handed[i].Inside(owned[b]);
      }
    }

    method AllocateFallback(bytes: nat, at: nat) returns (result: nat)
      requires Valid() && CanPlace(at, NewSize(bytes))
      modifies this
      ensures Valid() && result == at && handed == old(handed) + [Region(result, bytes)]
      ensures blocks == old(blocks) + [at] && owned == old(owned) + [Region(at, NewSize(bytes))]
      ensures if bytes > BLOCK_SIZE / 4 then Tail() == old(Tail()) else Tail() == Region(at + bytes, BLOCK_SIZE - bytes)
    {
      hide Valid;
      if bytes > BLOCK_SIZE / 4 {
        result := OwnBlock(bytes, at);
      } else {
        StartBlock(at);
        result := Cut(0, bytes);
      }
    }

    /** Hands out a region; at is where operator new would put a block, if one is needed. */
    method Allocate(bytes: nat, at: nat) returns (result: nat)
      requires Valid() && bytes > 0 && CanPlace(at, NewSize(bytes))
      modifies this
      ensures Valid() && handed == old(handed) + [Region(result, bytes)] && result > 0
      ensures memoryUsage == old(memoryUsage) + if bytes <= old(allocBytesRemaining) then 0 else Cost(bytes)
      ensures if bytes <= old(allocBytesRemaining) then
                owned == old(owned) && result == old(allocPtr) && Tail() == Region(result + bytes, old(allocBytesRemaining) - bytes)
              else
                owned == old(owned) + [Region(at, NewSize(bytes))] && result == at &&
                Tail() == if bytes > BLOCK_SIZE / 4 then old(Tail()) else Region(at + bytes, BLOCK_SIZE - bytes)
    {
      if bytes <= allocBytesRemaining {
        result := Cut(0, bytes);
      } else {
        result := AllocateFallback(bytes, at);
      }
    }

    /** Hands out an aligned region, if operator new returns aligned blocks. A request for no bytes gets
        null as long as there is no block. */
    method AllocateAligned(bytes: nat, at: nat) returns (result: nat)
      requires Valid() && CanPlace(at, NewSize(bytes))
      modifies this
      ensures Valid() && handed == old(handed) + [Region(result, bytes)]
      ensures BlocksAligned() ==> result % ALIGN == 0
      ensures result == 0 <==> bytes == 0 && old(current) == -1
      ensures memoryUsage == old(memoryUsage) + if bytes + Slop(old(allocPtr)) <= old(allocBytesRemaining) then 0 else Cost(bytes)
      ensures var slop := Slop(old(allocPtr));
              if bytes + slop <= old(allocBytesRemaining) then
                owned == old(owned) && result == old(allocPtr) + slop &&
                Tail() == Region(result + bytes, old(allocBytesRemaining) - slop - bytes)
              else
                owned == old(owned) + [Region(at, NewSize(bytes))] && result == at &&
                Tail() == if bytes > BLOCK_SIZE / 4 then old(Tail()) else Region(at + bytes, BLOCK_SIZE - bytes)
    {
      TailFacts();
      hide Valid, CanPlace;
      var currentMod := allocPtr % ALIGN;
      var slop := if currentMod == 0 then 0 else ALIGN - currentMod;
      assert slop == Slop(allocPtr);
      var needed := bytes + slop;
      if needed <= allocBytesRemaining {
        result := Cut(slop, bytes);
      } else {
        result := AllocateFallback(bytes, at);
        assert blocks[|blocks| - 1] == result;
      }
    }

    lemma TailFacts()
      requires Valid()
      ensures if current == -1 then allocPtr == 0 && allocBytesRemaining == 0 else allocPtr > 0
    {
    }

    /** The distance to the next aligned address. */
    static function Slop(p: nat): (slop: nat)
      ensures slop < ALIGN && (p + slop) % ALIGN == 0
    {
      if p % ALIGN == 0 then 0 else ALIGN - p % ALIGN
    }

    /** In every reachable state two regions handed out share no address, each lies in one owned block,
        and neither shares one with the unused tail. */
    lemma RegionsSeparate(i: nat, j: nat) returns (b: nat)
      requires Valid() && i < j < |handed| && handed[i].size > 0
      ensures handed[i].Apart(handed[j]) && handed[i].Apart(Tail()) && handed[j].Apart(Tail())
      ensures b < |owned| && handed[i].Inside(owned[b])
    {
      b :| 0 <= b < |owned| && handed[i].Inside(owned[b]);
    }
  }
}

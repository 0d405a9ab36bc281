/** alt_sbrk.c and the slab allocator of alt_gmon.c: who owns which bytes of the heap. */
module Heap {
  import opened Words

  const MCOUNT_SLAB_INCREMENT: nat := 1020

  /** What sbrk returns when it fails, as an address. */
  const NO_MEMORY: nat := 0xFFFF_FFFF

  /** The addresses from lo up to, but not including, hi. */
  datatype Block = Block(lo: nat, hi: nat)

  predicate Apart(a: Block, b: Block) {
    a.hi <= b.lo || b.hi <= a.lo
  }

  ghost predicate AllApart(blocks: seq<Block>) {
    forall i, j :: 0 <= i < j < |blocks| ==> Apart(blocks[i], blocks[j])
  }

  /** All within the heap, below top. */
  ghost predicate AllBelow(blocks: seq<Block>, start: nat, top: nat) {
    forall i :: 0 <= i < |blocks| ==> start <= blocks[i].lo <= blocks[i].hi <= top
  }

  function Aligned(address: nat): (r: nat)
    ensures address <= r <= address + 3 && r % 4 == 0
  {
    (address + 3) / 4 * 4
  }

  lemma AlignedOnce(a: nat, b: nat)
    requires a <= Aligned(b)
    ensures Aligned(a) <= Aligned(b) && Aligned(Aligned(a)) == Aligned(a)
  {
  }

  /** One request: of sbrk, or of the profiler. */
  datatype Request = Direct(size: nat) | Profile(size: nat)

  predicate Proper(r: Request) {
    match r
    case Direct(size) => size < 0x8000_0000
    case Profile(size) => 0 < size <= MCOUNT_SLAB_INCREMENT
  }

  /** How much has been taken: the end of the heap, and the bytes left of the slab. */
  datatype Space = Space(end: nat, left: int) {
    /** A request is met from the slab, or by extending the heap by `By(r)` bytes. */
    predicate FromSlab(r: Request) {
      r.Profile? && r.size <= left
    }

    predicate Fits(r: Request, limit: nat) {
      FromSlab(r) || Aligned(end) + By(r) <= limit
    }

    function Without(r: Request, limit: nat): Space {
      if FromSlab(r) then
        Space(end, left - r.size)
      else if Fits(r, limit) then
        Space(Aligned(end) + By(r), if r.Direct? then left else MCOUNT_SLAB_INCREMENT - r.size)
      else
        Space(Aligned(end), left)
    }

    function WithoutAll(requests: seq<Request>, limit: nat): Space
      decreases |requests|
    {
      if requests == [] then
        this
      else
        WithoutAll(requests[..|requests| - 1], limit).Without(requests[|requests| - 1], limit)
    }
  }

  function By(r: Request): nat {
    if r.Direct? then r.size else MCOUNT_SLAB_INCREMENT
  }

  class Allocator {
    const start: nat  // where the linker puts the heap
    const limit: nat  // where it ends
    var heapEnd: nat
    var slabPtr: nat
    var slabSize: int
    ghost var blocks: seq<Block>  // everything handed out, by sbrk to its callers and by mcount_allocate

    /**
     * The heap ends in the lower half of the address space, so that no increment can wrap. Nothing handed out
     * overlaps anything else, and what is left of the slab is nobody's.
     */
    ghost predicate Valid()
      reads this
    {
      && start <= heapEnd && start <= limit < 0x8000_0000 && heapEnd <= Aligned(limit)
      && AllApart(blocks) && AllBelow(blocks, start, heapEnd) && AllBelow(blocks, start, limit)
      && 0 <= slabSize <= MCOUNT_SLAB_INCREMENT
      && (slabSize > 0 ==> start <= slabPtr && slabPtr + slabSize <= heapEnd && slabPtr + slabSize <= limit)
      && (slabSize > 0 ==> forall i :: 0 <= i < |blocks| ==> Apart(blocks[i], Block(slabPtr, slabPtr + slabSize)))
    }

    ghost function Taken(): Space
      reads this
    {
      Space(heapEnd, slabSize)
    }

    constructor (start: nat, limit: nat)
      requires start <= limit < 0x8000_0000
      ensures Valid() && blocks == [] && this.start == start && this.limit == limit
    {
      this.start, this.limit := start, limit;
      heapEnd, slabPtr, slabSize, blocks := start, 0, 0, [];
    }

    /** Extends the heap by incr bytes, on a word boundary, unless that passes its limit. */
    method Extend(incr: nat) returns (address: nat)
      requires Valid() && incr < 0x8000_0000
      modifies this`heapEnd
      ensures Valid()
      ensures address != NO_MEMORY <==> Aligned(old(heapEnd)) + incr <= limit
      ensures if address == NO_MEMORY then heapEnd == Aligned(old(heapEnd))
              else address == Aligned(old(heapEnd)) && heapEnd == address + incr
    {
      AlignedOnce(heapEnd, limit);
      heapEnd := Aligned(heapEnd);
      if U32(heapEnd + incr) > limit {
        return NO_MEMORY;
      }
      address := heapEnd;
      heapEnd := U32(heapEnd + incr);
    }

    /** sbrk for a caller of its own: the bytes it gets belong to nobody else. */
    method Sbrk(incr: nat) returns (address: nat)
      requires Valid() && incr < 0x8000_0000
      modifies this`heapEnd, this`blocks
      ensures Valid() && (address != NO_MEMORY <==> Aligned(old(heapEnd)) + incr <= limit)
      ensures address != NO_MEMORY ==>
        && address % 4 == 0 && start <= address && address + incr <= limit
        && blocks == old(blocks) + [Block(address, address + incr)]
      ensures address == NO_MEMORY ==> blocks == old(blocks)
      ensures Taken() == old(Taken()).Without(Direct(incr), limit)
    {
      address := Extend(incr);
      if address != NO_MEMORY {
        HandOut(blocks, Block(address, address + incr), start, heapEnd);
        HandOut(blocks, Block(address, address + incr), start, limit);
        blocks := blocks + [Block(address, address + incr)];
      }
    }

    /**
     * A block of at most a slab. When the slab runs short a new one is fetched and the rest of the old one is
     * given up; `got` tells whether that worked, which the code itself does not ask.
     */
    method Allocate(size: nat) returns (data: nat, ghost got: bool)
      requires Valid() && 0 < size <= MCOUNT_SLAB_INCREMENT
      modifies this
      ensures got <==> size <= old(slabSize) || Aligned(old(heapEnd)) + MCOUNT_SLAB_INCREMENT <= limit
      ensures got ==>
        && Valid() && start <= data && data + size <= limit
        && blocks == old(blocks) + [Block(data, data + size)]
        && Taken() == old(Taken()).Without(Profile(size), limit)
      ensures !got ==> data == NO_MEMORY && blocks == old(blocks)
    {
      got := true;
      if size > slabSize {
        var slab := Extend(MCOUNT_SLAB_INCREMENT);
        got := slab != NO_MEMORY;
        slabPtr := slab;
        slabSize := MCOUNT_SLAB_INCREMENT;
      }
      data := slabPtr;
      slabPtr := slabPtr + size;
      slabSize := slabSize - size;
      if got {
        HandOut(blocks, Block(data, data + size), start, heapEnd);
        HandOut(blocks, Block(data, data + size), start, limit);
        blocks := blocks + [Block(data, data + size)];
      }
    }
  }

  lemma HandOut(blocks: seq<Block>, b: Block, start: nat, top: nat)
    requires AllApart(blocks) && AllBelow(blocks, start, top) && start <= b.lo <= b.hi <= top
    requires forall i :: 0 <= i < |blocks| ==> Apart(blocks[i], b)
    ensures AllApart(blocks + [b]) && AllBelow(blocks + [b], start, top)
  {
  }

  // ----- runs -----

  /** The blocks that the answers to these requests stand for. */
  function Given(requests: seq<Request>, addresses: seq<nat>): (r: seq<Block>)
    requires |requests| == |addresses|
    ensures |r| <= |requests|
  {
    if requests == [] then
      []
    else
      var n := |requests| - 1;
      var data := addresses[n];
      Given(requests[..n], addresses[..n]) + if data == NO_MEMORY then [] else [Block(data, data + requests[n].size)]
  }

  lemma GivenOneMore(requests: seq<Request>, addresses: seq<nat>, r: Request, data: nat)
    requires |requests| == |addresses|
    ensures Given(requests + [r], addresses + [data])
            == Given(requests, addresses) + if data == NO_MEMORY then [] else [Block(data, data + r.size)]
  {
    var more, answers := requests + [r], addresses + [data];
    assert more[..|requests|] == requests && answers[..|requests|] == addresses;
  }

  lemma TakenOneMore(s: Space, requests: seq<Request>, r: Request, limit: nat)
    ensures s.WithoutAll(requests + [r], limit) == s.WithoutAll(requests, limit).Without(r, limit)
  {
    assert (requests + [r])[..|requests|] == requests;
  }

  /** The answer to each request: an address exactly when the space left by the earlier ones admits it. */
  ghost predicate Answered(s: Space, requests: seq<Request>, addresses: seq<nat>, limit: nat)
    requires |addresses| <= |requests|
  {
    forall i :: 0 <= i < |addresses| ==>
      (addresses[i] != NO_MEMORY <==> s.WithoutAll(requests[..i], limit).Fits(requests[i], limit))
  }

  lemma AnsweredOneMore(s: Space, requests: seq<Request>, addresses: seq<nat>, address: nat, limit: nat)
    requires |addresses| < |requests| && Answered(s, requests, addresses, limit)
    requires address != NO_MEMORY
             <==> s.WithoutAll(requests[..|addresses|], limit).Fits(requests[|addresses|], limit)
    ensures Answered(s, requests, addresses + [address], limit)
  {
    hide Space.Fits, Space.WithoutAll;
  }

  /** n records of twelve bytes. */
  function Records(n: nat): (r: seq<Request>)
    ensures |r| == n
  {
    seq(n, _ => Profile(12))
  }

  /** Eighty-five records of twelve bytes share one extension of the heap by 1020 bytes. */
  lemma {:induction false} RecordsPerSlab(end: nat, slabs: nat, n: nat, limit: nat)
    requires 85 * slabs - 85 < n <= 85 * slabs && Aligned(end) + 1020 * slabs <= limit
    ensures Space(end, 0).WithoutAll(Records(n), limit)
            == Space(if n == 0 then end else Aligned(end) + 1020 * slabs, 1020 * slabs - 12 * n)
    decreases n
  {
    if n > 0 {
      assert Records(n)[..n - 1] == Records(n - 1);
      var before := if n - 1 == 85 * (slabs - 1) then slabs - 1 else slabs;
      RecordsPerSlab(end, before, n - 1, limit);
      StaysAligned(Aligned(end), before);
    }
  }

  lemma StaysAligned(a: nat, slabs: nat)
    requires a % 4 == 0
    ensures Aligned(a + 1020 * slabs) == a + 1020 * slabs
  {
    assert a + 1020 * slabs == 4 * (a / 4 + 255 * slabs);
  }

  /** One request. After a profiler request that finds no memory the slab is unusable. */
  method Answer(a: Allocator, r: Request) returns (address: nat, ghost usable: bool)
    requires a.Valid() && Proper(r)
    modifies a
    ensures address != NO_MEMORY <==> old(a.Taken()).Fits(r, a.limit)
    ensures a.blocks == old(a.blocks) + if address == NO_MEMORY then [] else [Block(address, address + r.size)]
    ensures usable <==> r.Direct? || address != NO_MEMORY
    ensures usable ==> a.Valid() && a.Taken() == old(a.Taken()).Without(r, a.limit)
    ensures AllApart(a.blocks) && AllBelow(a.blocks, a.start, a.limit)
  {
    match r {
      case Direct(incr) =>
        address := a.Sbrk(incr);
        usable := true;
      case Profile(size) =>
        address, usable := a.Allocate(size);
    }
  }

  lemma RunStarts(s: Space, requests: seq<Request>, limit: nat)
    ensures Given([], []) == [] && Answered(s, requests, [], limit) && s.WithoutAll([], limit) == s
  {
  }

  /**
   * Any run of requests, up to the first profiler request that finds no memory. Each is answered as the space
   * left says; the blocks handed out are those of the answers, each of the size asked for; and all blocks, of
   * this run and of before, lie apart within the heap.
   */
  method Serve(a: Allocator, requests: seq<Request>) returns (addresses: seq<nat>)
    requires a.Valid() && forall i :: 0 <= i < |requests| ==> Proper(requests[i])
    modifies a
    ensures |addresses| <= |requests| && Answered(old(a.Taken()), requests, addresses, a.limit)
    ensures |addresses| < |requests| ==>
              addresses != [] && addresses[|addresses| - 1] == NO_MEMORY && requests[|addresses| - 1].Profile?
    ensures a.blocks == old(a.blocks) + Given(requests[..|addresses|], addresses)
    ensures AllApart(a.blocks) && AllBelow(a.blocks, a.start, a.limit)
  {
    hide AllApart, AllBelow, Answered, Given, Space.Fits, Space.Without, Space.WithoutAll;
    RunStarts(a.Taken(), requests, a.limit);
    addresses := [];
    while |addresses| < |requests|
      invariant |addresses| <= |requests| && a.Valid() && Answered(old(a.Taken()), requests, addresses, a.limit)
      invariant a.Taken() == old(a.Taken()).WithoutAll(requests[..|addresses|], a.limit)
      invariant a.blocks == old(a.blocks) + Given(requests[..|addresses|], addresses)
    {
      var n := |addresses|;
      assert requests[..n + 1] == requests[..n] + [requests[n]];
      var address, usable := Answer(a, requests[n]);
      GivenOneMore(requests[..n], addresses, requests[n], address);
      AnsweredOneMore(old(a.Taken()), requests, addresses, address, a.limit);
      TakenOneMore(old(a.Taken()), requests[..n], requests[n], a.limit);
      addresses := addresses + [address];
      if address == NO_MEMORY && requests[n].Profile? {
        return;
      }
    }
  }
}

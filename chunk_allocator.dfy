/** The bump/arena allocator of chuck_allocator/chunck_allocator.cpp.
    A `Chunk` is a fixed buffer with a bump cursor; a `MyAllocator` handle
    shares a `ControlBlock` (a reference counter and an ordered list of
    chunks) with every handle copied from it. Raw pointers become offsets
    into a chunk's buffer. */
module ChunkAllocator {
  import opened Wrappers

  /** `MyAllocator::CHUNK_SIZE`: the capacity of every chunk, in bytes. */
  const CHUNK_SIZE: nat := 1_000_000

  /** `size_t` arithmetic is modulo 2^64. */
  const SIZE_T_MODULUS: nat := 0x1_0000_0000_0000_0000

  datatype AllocError = BadAlloc

  /** The bytes `[start, end)` of a chunk handed out by one allocation. */
  datatype Range = Range(start: nat, end: nat)

  /** The ranges handed out by a chunk tile `[0, used)` in order: each starts
      where the previous one ended. */
  ghost predicate Tiles(ranges: seq<Range>, used: nat)
    decreases |ranges|
  {
    if ranges == [] then used == 0
    else
      var last := ranges[|ranges| - 1];
      last.start <= last.end == used && Tiles(ranges[..|ranges| - 1], last.start)
  }

  /** Ranges that tile `[0, used)` lie inside it and never overlap. */
  lemma {:induction false} TilesDisjoint(ranges: seq<Range>, used: nat)
    requires Tiles(ranges, used)
    ensures forall i :: 0 <= i < |ranges| ==> ranges[i].start <= ranges[i].end <= used
    ensures forall i, j :: 0 <= i < j < |ranges| ==> ranges[i].end <= ranges[j].start
  {
    if ranges != [] {
      var n := |ranges| - 1;
      TilesDisjoint(ranges[..n], ranges[n].start);
      assert forall i :: 0 <= i < n ==> ranges[i] == ranges[..n][i];
    }
  }

  /** Appending the range `[used, used + size)` keeps the tiling. */
  lemma TilesExtend(ranges: seq<Range>, used: nat, size: nat)
    requires Tiles(ranges, used)
    ensures Tiles(ranges + [Range(used, used + size)], used + size)
  {
    assert (ranges + [Range(used, used + size)])[..|ranges|] == ranges;
  }

  /** `Chunk<Size>`: a buffer of `capacity` bytes and the bump cursor `used`
      (the distance `free_ - data_`). A moved-from chunk has a null buffer. */
  class Chunk {
    const capacity: nat
    var data: array?<bv8>
    var used: nat
    /** The ranges handed out so far, oldest first. */
    ghost var reserved: seq<Range>

    ghost predicate Valid()
      reads this
    {
      used <= capacity && Tiles(reserved, used) &&
      (data != null ==> data.Length == capacity)
    }

    /** `Chunk()`: a fresh buffer with the cursor at its start. */
    constructor (size: nat)
      ensures Valid() && capacity == size
      ensures data != null && fresh(data)
      ensures used == 0 && reserved == []
    {
      capacity := size;
      data := new bv8[size];
      used := 0;
      reserved := [];
    }

    /** The move constructor: starts null, then swaps buffer and cursor with
        `other`, which is left null. */
    constructor MoveFrom(other: Chunk)
      requires other.Valid()
      modifies other
      ensures Valid() && capacity == other.capacity
      ensures data == old(other.data) && used == old(other.used) && reserved == old(other.reserved)
      ensures other.Valid() && other.data == null && other.used == 0 && other.reserved == []
    {
      capacity := other.capacity;
      data := null;
      used := 0;
      reserved := [];
      new;
      data, other.data := other.data, data;
      used, other.used := other.used, used;
      reserved, other.reserved := other.reserved, reserved;
    }

    /** Move assignment: swaps buffer and cursor; nothing happens on self-move. */
    method MoveAssign(other: Chunk)
      requires Valid() && other.Valid() && capacity == other.capacity
      modifies this, other
      ensures Valid() && other.Valid()
      ensures data == old(other.data) && used == old(other.used) && reserved == old(other.reserved)
      ensures other.data == old(data) && other.used == old(used) && other.reserved == old(reserved)
    {
      if this == other {
        return;
      }
      data, other.data := other.data, data;
      used, other.used := other.used, used;
      reserved, other.reserved := other.reserved, reserved;
    }

    /** `allocate(size)`: fails (null) when fewer than `size` bytes remain;
        otherwise advances the cursor by `size` and returns the NEW cursor,
        which is the end of the reserved range, not its start. */
    method Allocate(size: nat) returns (r: Option<nat>)
      requires Valid()
      modifies this`used, this`reserved
      ensures Valid()
      ensures r.None? <==> capacity - old(used) < size
      ensures r.None? ==> used == old(used) && reserved == old(reserved)
      ensures r.Some? ==> used == old(used) + size && r.value == used
      ensures r.Some? ==> reserved == old(reserved) + [Range(old(used), used)]
    {
      if capacity - used < size {
        return None;
      }
      TilesExtend(reserved, used, size);
      reserved := reserved + [Range(used, used + size)];
      used := used + size;
      r := Some(used);
    }
  }

  /** `ControlBlock`: the reference counter and the chunks, in creation
      order. `owners` is the set of live handles that refer to the block;
      `cursors` and `reservations` mirror each chunk's cursor and ranges so
      that contracts compare plain sequences. */
  class ControlBlock {
    var refCounter: int
    var chunks: seq<Chunk>
    ghost var owners: multiset<MyAllocator>
    ghost var freed: bool
    ghost var cursors: seq<nat>
    ghost var reservations: seq<seq<Range>>

    ghost predicate Valid()
      reads this, chunks
    {
      refCounter == |owners| && Sound()
    }

    /** The chunks are distinct and full-size, and the mirrors agree with
        them. */
    ghost predicate Sound()
      reads this`chunks, this`cursors, this`reservations, chunks
    {
      && |cursors| == |chunks| && |reservations| == |chunks|
      && (forall i, j :: 0 <= i < j < |chunks| ==> chunks[i] != chunks[j])
      && (forall i :: 0 <= i < |chunks| ==> chunks[i].Valid() && chunks[i].capacity == CHUNK_SIZE)
      && (forall i :: 0 <= i < |chunks| ==> chunks[i].used == cursors[i] && chunks[i].reserved == reservations[i])
    }

    /** A new block with no chunks. The source starts `ref_counter` at 1 for
        the handle that creates the block; here the counter starts at 0 and
        that handle joins at once (`MyAllocator` constructor), so every
        handle sees the same count. */
    constructor ()
      ensures Valid() && refCounter == 0 && chunks == [] && owners == multiset{} && !freed
    {
      refCounter := 0;
      chunks := [];
      owners := multiset{};
      freed := false;
      cursors := [];
      reservations := [];
    }

    /** A handle starts sharing the block: the counter goes up by one. */
    method Join(a: MyAllocator)
      requires Valid()
      modifies this`refCounter, this`owners
      ensures Valid()
      ensures refCounter == old(refCounter) + 1 && owners == old(owners) + multiset{a}
    {
      refCounter := refCounter + 1;
      owners := owners + multiset{a};
    }

    /** A handle stops sharing the block: the counter goes down by one, and
        when it reaches 0 the chunks are released. */
    method Leave(a: MyAllocator)
      requires Valid() && a in owners && !freed
      modifies this
      ensures refCounter == old(refCounter) - 1
      ensures owners == old(owners) - multiset{a}
      ensures freed <==> old(owners) == multiset{a}
      ensures freed ==> chunks == []
      ensures !freed ==> chunks == old(chunks) && Valid()
    {
      LastOwner(owners, a);
      refCounter := refCounter - 1;
      owners := owners - multiset{a};
      if refCounter == 0 {
        chunks := [];
        cursors := [];
        reservations := [];
        freed := true;
      }
    }

    /** One step of the first-fit scan: `chunk.allocate(bytes)` on chunk `i`. */
    method AllocateFrom(i: nat, bytes: nat) returns (res: Option<nat>)
      requires Valid() && i < |chunks|
      modifies this`cursors, this`reservations, chunks[i]
      ensures Valid()
      ensures res.None? <==> CHUNK_SIZE - old(cursors[i]) < bytes
      ensures res.None? ==> cursors == old(cursors) && reservations == old(reservations)
      ensures res.Some? ==> cursors == old(cursors)[i := old(cursors[i]) + bytes] && res.value == cursors[i]
      ensures res.Some? ==>
        reservations == old(reservations)[i := old(reservations[i]) + [Range(old(cursors[i]), cursors[i])]]
    {
      res := chunks[i].Allocate(bytes);
      if res.Some? {
        cursors := cursors[i := chunks[i].used];
        reservations := reservations[i := chunks[i].reserved];
      }
    }

    /** `chunks.emplace_back()`: a fresh empty chunk at the end. */
    method AppendChunk() returns (added: Chunk)
      requires Valid()
      modifies this`chunks, this`cursors, this`reservations
      ensures Valid() && fresh(added) && fresh(added.data)
      ensures chunks == old(chunks) + [added]
      ensures cursors == old(cursors) + [0] && reservations == old(reservations) + [[]]
    {
      added := new Chunk(CHUNK_SIZE);
      chunks := chunks + [added];
      cursors := cursors + [0];
      reservations := reservations + [[]];
    }

    /** The first-fit scan: `chunk.allocate(bytes)` on each chunk in turn
        until one succeeds. */
    method Scan(bytes: nat) returns (hit: Option<nat>)
      requires Valid()
      modifies this`cursors, this`reservations, chunks
      ensures Valid()
      ensures hit == FirstFit(old(cursors), bytes)
      ensures hit.None? ==> cursors == old(cursors) && reservations == old(reservations)
      ensures hit.Some? ==> cursors == old(cursors)[hit.value := old(cursors[hit.value]) + bytes]
      ensures hit.Some? ==>
        reservations == old(reservations)[hit.value := old(reservations[hit.value]) + [Range(old(cursors[hit.value]), cursors[hit.value])]]
    {
      var i := 0;
      while i < |chunks|
        invariant 0 <= i <= |chunks|
        invariant Valid() && cursors == old(cursors) && reservations == old(reservations)
        invariant forall j :: 0 <= j < i ==> CHUNK_SIZE - cursors[j] < bytes
      {
        var res := AllocateFrom(i, bytes);
        if res.Some? {
          FirstFitIsFirst(old(cursors), bytes, i);
          return Some(i);
        }
        i := i + 1;
      }
      FirstFitNone(cursors, bytes);
      hit := None;
    }

    /** The body of `allocate` once the size check has passed: first fit over
        the chunks in order, or one new chunk appended at the end. It returns
        the serving chunk and the cursor its `allocate` returns. */
    method Serve(bytes: nat) returns (r: (Chunk, nat))
      requires Valid() && bytes <= CHUNK_SIZE
      modifies this`chunks, this`cursors, this`reservations, chunks
      ensures Valid()
      ensures cursors == Served(old(cursors), bytes)
      ensures reservations == Booked(old(reservations), old(cursors), bytes)
      ensures chunks[..|old(chunks)|] == old(chunks)
      ensures FirstFit(old(cursors), bytes).None? ==> |chunks| == |old(chunks)| + 1 && fresh(chunks[|old(chunks)|])
      ensures r.0 == chunks[Target(old(cursors), bytes)]
      ensures r.1 == cursors[Target(old(cursors), bytes)]
    {
      var hit := Scan(bytes);
      match hit
      case Some(k) =>
        assert chunks[..|chunks|] == chunks;
        r := (chunks[k], chunks[k].used);
      case None =>
        ghost var before := chunks;
        r := Extend(bytes);
        assert chunks[..|before|] == before;
    }

    /** A served request as its caller sees it: the serving chunk and the
        offset where its new range starts, one `bytes`-long range appended
        to that chunk above every range it handed out before. */
    method Grant(bytes: nat) returns (r: (Chunk, nat))
      requires Valid() && bytes <= CHUNK_SIZE
      modifies this`chunks, this`cursors, this`reservations, chunks
      ensures Valid()
      ensures cursors == Served(old(cursors), bytes)
      ensures reservations == Booked(old(reservations), old(cursors), bytes)
      ensures chunks[..|old(chunks)|] == old(chunks)
      ensures r.0 == chunks[Target(old(cursors), bytes)]
      ensures r.1 == Start(old(cursors), bytes)
      ensures r.0.reserved[|r.0.reserved| - 1] == Range(r.1, r.1 + bytes)
      ensures forall i :: 0 <= i < |r.0.reserved| - 1 ==> r.0.reserved[i].end <= r.1
    {
      BookedFresh(reservations, cursors, bytes);
      var served := Serve(bytes);
      r := (served.0, served.1 - bytes);
    }

    /** A request no chunk holds: `emplace_back` a new chunk and allocate
        from it. */
    method Extend(bytes: nat) returns (r: (Chunk, nat))
      requires Valid() && bytes <= CHUNK_SIZE
      requires FirstFit(cursors, bytes).None?
      modifies this`chunks, this`cursors, this`reservations
      ensures Valid() && fresh(r.0)
      ensures chunks == old(chunks) + [r.0]
      ensures cursors == Served(old(cursors), bytes)
      ensures reservations == Booked(old(reservations), old(cursors), bytes)
      ensures r.1 == bytes
    {
      var added := AppendChunk();
      var res := AllocateFrom(|chunks| - 1, bytes);
      assert (old(cursors) + [0])[|old(cursors)| := bytes] == old(cursors) + [bytes];
      assert (old(reservations) + [[]])[|old(cursors)| := [] + [Range(0, bytes)]] == old(reservations) + [[Range(0, bytes)]];
      r := (added, res.value);
    }
  }

  /** The first chunk, in order, whose remaining room `CHUNK_SIZE - cursor`
      holds `bytes`; `None` when no chunk has room. */
  function FirstFit(cursors: seq<nat>, bytes: nat): (k: Option<nat>)
    ensures k.Some? ==> k.value < |cursors| && bytes <= CHUNK_SIZE - cursors[k.value]
    ensures k.Some? ==> forall j :: 0 <= j < k.value ==> CHUNK_SIZE - cursors[j] < bytes
    ensures k.None? ==> forall j :: 0 <= j < |cursors| ==> CHUNK_SIZE - cursors[j] < bytes
  {
    if cursors == [] then None
    else if bytes <= CHUNK_SIZE - cursors[0] then Some(0)
    else match FirstFit(cursors[1..], bytes)
      case None => None
      case Some(k) => Some(k + 1)
  }

  /** The index of the chunk that serves a request: the first fit, or the
      position of the chunk appended when none fits. */
  function Target(cursors: seq<nat>, bytes: nat): (k: nat)
    ensures k <= |cursors|
    ensures k < |cursors| ==> bytes <= CHUNK_SIZE - cursors[k]
    ensures forall j :: 0 <= j < k ==> CHUNK_SIZE - cursors[j] < bytes
  {
    match FirstFit(cursors, bytes)
    case Some(k) => k
    case None => |cursors|
  }

  /** The cursors after a request of `bytes` has been served. */
  function Served(cursors: seq<nat>, bytes: nat): (after: seq<nat>)
    ensures |after| == |cursors| + (if Target(cursors, bytes) == |cursors| then 1 else 0)
    ensures after[Target(cursors, bytes)] ==
      (if Target(cursors, bytes) < |cursors| then cursors[Target(cursors, bytes)] else 0) + bytes
    ensures forall j :: 0 <= j < |cursors| && j != Target(cursors, bytes) ==> after[j] == cursors[j]
  {
    match FirstFit(cursors, bytes)
    case Some(k) => cursors[k := cursors[k] + bytes]
    case None => cursors + [bytes]
  }

  /** The ranges of every chunk after a request of `bytes` has been served:
      the serving chunk gains the range that starts at its old cursor (0 for
      a new chunk). */
  ghost function Booked(reservations: seq<seq<Range>>, cursors: seq<nat>, bytes: nat): (after: seq<seq<Range>>)
    requires |reservations| == |cursors|
    ensures |after| == |Served(cursors, bytes)|
    ensures after[Target(cursors, bytes)] ==
      (if Target(cursors, bytes) < |cursors| then reservations[Target(cursors, bytes)] else [])
      + [Range(Start(cursors, bytes), Start(cursors, bytes) + bytes)]
    ensures forall j :: 0 <= j < |cursors| && j != Target(cursors, bytes) ==> after[j] == reservations[j]
  {
    match FirstFit(cursors, bytes)
    case Some(k) => reservations[k := reservations[k] + [Range(cursors[k], cursors[k] + bytes)]]
    case None => reservations + [[Range(0, bytes)]]
  }

  /** Where the range that serves a request starts: the serving chunk's old
      cursor, or 0 in a new chunk. */
  function Start(cursors: seq<nat>, bytes: nat): (start: nat)
    ensures start + bytes == Served(cursors, bytes)[Target(cursors, bytes)]
  {
    if Target(cursors, bytes) < |cursors| then cursors[Target(cursors, bytes)] else 0
  }

  /** `n * sizeof(T)` as the source computes it, in `size_t`. */
  function RequestBytesAsWritten(n: nat, elemSize: nat): (bytes: nat)
    requires n < SIZE_T_MODULUS && elemSize < SIZE_T_MODULUS
    ensures bytes < SIZE_T_MODULUS
  {
    (n * elemSize) % SIZE_T_MODULUS
  }

  /** With the wrapped product, a request for 2^62 four-byte elements
      passes the `to_allocate > CHUNK_SIZE` check as a request for 0 bytes and
      reserves nothing, while the true product is refused. */
  lemma WrappedRequestServed(cursors: seq<nat>)
    requires forall j :: 0 <= j < |cursors| ==> cursors[j] <= CHUNK_SIZE
    ensures RequestBytesAsWritten(0x4000_0000_0000_0000, 4) == 0 <= CHUNK_SIZE
    ensures !RequestFits(0x4000_0000_0000_0000, 4)
    ensures Served(cursors, RequestBytesAsWritten(0x4000_0000_0000_0000, 4)) == if cursors == [] then [0] else cursors
  {
    if cursors != [] {
      assert FirstFit(cursors, 0) == Some(0);
    }
  }

  /** The intended check: the request fits one chunk exactly when the
      true product does; `n <= CHUNK_SIZE / elemSize` decides it without
      forming the product. */
  function RequestFits(n: nat, elemSize: nat): (fits: bool)
    requires elemSize > 0
    ensures fits <==> n * elemSize <= CHUNK_SIZE
  {
    DivisionBound(n, elemSize);
    n <= CHUNK_SIZE / elemSize
  }

  lemma DivisionBound(n: nat, d: nat)
    requires d > 0
    ensures n <= CHUNK_SIZE / d <==> n * d <= CHUNK_SIZE
  {
    var q := CHUNK_SIZE / d;
    assert q * d <= CHUNK_SIZE < (q + 1) * d;
    if n <= q {
      assert n * d <= q * d;
    } else {
      assert n * d >= (q + 1) * d;
    }
  }

  /** A handle of `MyAllocator<T>`: a pointer to the shared control block.
      `elemSize` is `sizeof(T)`. */
  class MyAllocator {
    const elemSize: nat
    var controlBlock: ControlBlock

    ghost predicate Valid()
      reads this, controlBlock, controlBlock.chunks
    {
      elemSize > 0 && controlBlock.Valid() && this in controlBlock.owners && !controlBlock.freed
    }

    /** `MyAllocator()`: a new control block with `ref_counter == 1` and no chunks. */
    constructor (size: nat)
      requires size > 0
      ensures Valid() && elemSize == size && fresh(controlBlock)
      ensures controlBlock.refCounter == 1 && controlBlock.chunks == [] && controlBlock.owners == multiset{this}
    {
      elemSize := size;
      var block := new ControlBlock();
      block.refCounter := 1;
      controlBlock := block;
      new;
      block.owners := multiset{this};
    }

    /** The copy constructor: aliases the control block and increments its counter. */
    constructor Copy(other: MyAllocator)
      requires other.Valid()
      modifies other.controlBlock
      ensures Valid() && elemSize == other.elemSize
      ensures controlBlock == other.controlBlock
      ensures controlBlock.refCounter == old(other.controlBlock.refCounter) + 1
      ensures controlBlock.owners == old(other.controlBlock.owners) + multiset{this}
      ensures controlBlock.chunks == old(other.controlBlock.chunks)
      ensures !controlBlock.freed
    {
      elemSize := other.elemSize;
      controlBlock := other.controlBlock;
      new;
      controlBlock.refCounter := controlBlock.refCounter + 1;
      controlBlock.owners := controlBlock.owners + multiset{this};
    }

    /** The destructor: decrements the counter; the chunks and the block are
        released exactly when it reaches 0, that is, when this was the last
        handle. */
    method Destroy()
      requires Valid()
      modifies controlBlock
      ensures controlBlock == old(controlBlock)
      ensures controlBlock.refCounter == old(controlBlock.refCounter) - 1
      ensures controlBlock.owners == old(controlBlock.owners) - multiset{this}
      ensures controlBlock.freed <==> old(controlBlock.owners) == multiset{this}
      ensures controlBlock.freed ==> controlBlock.chunks == []
      ensures !controlBlock.freed ==> controlBlock.chunks == old(controlBlock.chunks) && controlBlock.Valid()
    {
      controlBlock.Leave(this);
    }

    /** Copy assignment, with its evident intent: release the old block as
        the destructor does, then alias `other`'s block and count this
        handle in it. */
    method Assign(other: MyAllocator)
      requires Valid() && other.Valid() && elemSize == other.elemSize
      modifies this, controlBlock, other.controlBlock
      ensures Valid() && controlBlock == old(other.controlBlock)
      ensures controlBlock.chunks == old(other.controlBlock.chunks)
      ensures old(controlBlock) == old(other.controlBlock) ==>
        controlBlock.owners == old(controlBlock.owners) && controlBlock.refCounter == old(controlBlock.refCounter)
      ensures old(controlBlock) != old(other.controlBlock) ==>
        && controlBlock.owners == old(other.controlBlock.owners) + multiset{this}
        && controlBlock.refCounter == old(other.controlBlock.refCounter) + 1
        && old(controlBlock).owners == old(controlBlock.owners) - multiset{this}
        && old(controlBlock).refCounter == old(controlBlock.refCounter) - 1
        && (old(controlBlock).freed <==> old(controlBlock.owners) == multiset{this})
    {
      if this == other {
        return;
      }
      if controlBlock == other.controlBlock {
        Reshare(other);
      } else {
        Rebind(other);
      }
    }

    /** Assignment from another handle of the same block: the count drops
        and comes back, and nothing else changes. */
    method Reshare(other: MyAllocator)
      requires Valid() && other.Valid() && this != other && controlBlock == other.controlBlock
      modifies controlBlock
      ensures Valid() && controlBlock == old(controlBlock)
      ensures controlBlock.chunks == old(controlBlock.chunks)
      ensures controlBlock.owners == old(controlBlock.owners) && controlBlock.refCounter == old(controlBlock.refCounter)
    {
      TwoOwners(controlBlock.owners, this, other);
      Destroy();
      controlBlock.Join(this);
      assert controlBlock.owners == old(controlBlock.owners) - multiset{this} + multiset{this};
    }

    /** Assignment from a handle of another block: this handle leaves its
        block, as the destructor does, and joins `other`'s. */
    method Rebind(other: MyAllocator)
      requires Valid() && other.Valid() && controlBlock != other.controlBlock
      modifies this, controlBlock, other.controlBlock
      ensures Valid() && controlBlock == old(other.controlBlock)
      ensures controlBlock.chunks == old(other.controlBlock.chunks)
      ensures controlBlock.owners == old(other.controlBlock.owners) + multiset{this}
      ensures controlBlock.refCounter == old(other.controlBlock.refCounter) + 1
      ensures old(controlBlock).owners == old(controlBlock.owners) - multiset{this}
      ensures old(controlBlock).refCounter == old(controlBlock.refCounter) - 1
      ensures old(controlBlock).freed <==> old(controlBlock.owners) == multiset{this}
    {
      var target := other.controlBlock;
      Destroy();
      target.Join(this);
      controlBlock := target;
    }

    /** `allocate(n)` with its evident intent: throws `bad_alloc` when the
        true product `n * sizeof(T)` exceeds one chunk; otherwise serves the
        request from the shared block and returns the chunk and the offset
        where the new range STARTS. The range is appended to that chunk's
        ranges and lies above every range it handed out before. */
    method Allocate(n: nat) returns (r: Result<(Chunk, nat), AllocError>)
      requires Valid()
      modifies controlBlock`chunks, controlBlock`cursors, controlBlock`reservations, controlBlock.chunks
      ensures Valid()
      ensures r.Err? <==> n * elemSize > CHUNK_SIZE
      ensures r.Err? ==> controlBlock.chunks == old(controlBlock.chunks)
      ensures r.Err? ==> controlBlock.cursors == old(controlBlock.cursors)
      ensures r.Err? ==> controlBlock.reservations == old(controlBlock.reservations)
      ensures r.Ok? ==> controlBlock.cursors == Served(old(controlBlock.cursors), n * elemSize)
      ensures r.Ok? ==>
        controlBlock.reservations == Booked(old(controlBlock.reservations), old(controlBlock.cursors), n * elemSize)
      ensures r.Ok? ==> controlBlock.chunks[..|old(controlBlock.chunks)|] == old(controlBlock.chunks)
      ensures r.Ok? ==> r.value.0 == controlBlock.chunks[Target(old(controlBlock.cursors), n * elemSize)]
      ensures r.Ok? ==> r.value.1 == Start(old(controlBlock.cursors), n * elemSize)
      ensures r.Ok? ==> r.value.0.reserved[|r.value.0.reserved| - 1] == Range(r.value.1, r.value.1 + n * elemSize)
      ensures r.Ok? ==> forall i :: 0 <= i < |r.value.0.reserved| - 1 ==> r.value.0.reserved[i].end <= r.value.1
    {
      if !RequestFits(n, elemSize) {
        return Err(BadAlloc);
      }
      var served := controlBlock.Grant(n * elemSize);
      r := Ok(served);
    }

    /** `allocate(n)` as written: the byte count `n * sizeof(T)` wraps in
        `size_t` before the check, and the result is the cursor the chunk's
        `allocate` returns, which is the END of the new range. */
    method AllocateAsWritten(n: nat) returns (r: Result<(Chunk, nat), AllocError>)
      requires Valid() && n < SIZE_T_MODULUS && elemSize < SIZE_T_MODULUS
      modifies controlBlock`chunks, controlBlock`cursors, controlBlock`reservations, controlBlock.chunks
      ensures Valid()
      ensures r.Err? <==> RequestBytesAsWritten(n, elemSize) > CHUNK_SIZE
      ensures r.Err? ==> controlBlock.chunks == old(controlBlock.chunks)
      ensures r.Err? ==> controlBlock.cursors == old(controlBlock.cursors)
      ensures r.Ok? ==> controlBlock.cursors == Served(old(controlBlock.cursors), RequestBytesAsWritten(n, elemSize))
      ensures r.Ok? ==> r.value.0 == controlBlock.chunks[Target(old(controlBlock.cursors), RequestBytesAsWritten(n, elemSize))]
      ensures r.Ok? ==> r.value.1 == controlBlock.cursors[Target(old(controlBlock.cursors), RequestBytesAsWritten(n, elemSize))]
    {
      var bytes := RequestBytesAsWritten(n, elemSize);
      if bytes > CHUNK_SIZE {
        return Err(BadAlloc);
      }
      var served := controlBlock.Serve(bytes);
      r := Ok(served);
    }

    /** `deallocate`: does nothing; space comes back only with the whole block. */
    method Deallocate(p: (Chunk, nat), n: nat)
      requires Valid()
      ensures controlBlock.chunks == old(controlBlock.chunks)
    {
    }
  }

  /** Serving a request that fits one chunk keeps every cursor within its
      chunk, so every reserved range lies inside a buffer. */
  lemma ServedWithinChunks(cursors: seq<nat>, bytes: nat)
    requires bytes <= CHUNK_SIZE
    requires forall j :: 0 <= j < |cursors| ==> cursors[j] <= CHUNK_SIZE
    ensures forall j :: 0 <= j < |Served(cursors, bytes)| ==> Served(cursors, bytes)[j] <= CHUNK_SIZE
  {
  }

  /** Serving a request keeps every chunk's ranges tiling its cursor, and
      the new range lies above every range the serving chunk handed out
      before, so it overlaps none of them. */
  lemma BookedFresh(reservations: seq<seq<Range>>, cursors: seq<nat>, bytes: nat)
    requires |reservations| == |cursors|
    requires forall j :: 0 <= j < |cursors| ==> Tiles(reservations[j], cursors[j])
    ensures forall j :: 0 <= j < |cursors| + 1 && j < |Served(cursors, bytes)| ==>
      Tiles(Booked(reservations, cursors, bytes)[j], Served(cursors, bytes)[j])
    ensures forall i :: 0 <= i < |Booked(reservations, cursors, bytes)[Target(cursors, bytes)]| - 1 ==>
      Booked(reservations, cursors, bytes)[Target(cursors, bytes)][i].end <= Start(cursors, bytes)
  {
    var k := Target(cursors, bytes);
    var old_ := if k < |cursors| then reservations[k] else [];
    var used := Start(cursors, bytes);
    assert Tiles(old_, used);
    TilesExtend(old_, used, bytes);
    TilesDisjoint(old_, used);
  }

  /** As written, the pointer handed to a caller is where the next range
      of the same chunk starts: two live objects share those bytes. */
  lemma EndPointerIsNextStart(cursors: seq<nat>, bytes: nat)
    requires Target(Served(cursors, bytes), bytes) == Target(cursors, bytes)
    ensures Served(cursors, bytes)[Target(cursors, bytes)] == Start(Served(cursors, bytes), bytes)
  {
  }

  /** Two four-byte requests on an empty block: as written, the first caller
      gets offset 4, which is exactly the range `[4, 8)` reserved for the
      second. */
  lemma EndPointerOverlapsNext()
    ensures Served([], 4) == [4] && Start([], 4) == 0
    ensures Booked([[Range(0, 4)]], [4], 4) == [[Range(0, 4), Range(4, 8)]]
  {
    assert FirstFit([], 4) == None;
    assert Served([], 4) == [] + [4];
    assert FirstFit([4], 4) == Some(0);
    var after := Booked([[Range(0, 4)]], [4], 4);
    assert after == [[Range(0, 4)]][0 := [Range(0, 4)] + [Range(4, 8)]];
    assert after[0] == [Range(0, 4), Range(4, 8)];
  }

  /** Removing one owner lowers the count by one, to 0 exactly when it was
      the only owner. */
  lemma LastOwner(owners: multiset<MyAllocator>, a: MyAllocator)
    requires a in owners
    ensures |owners - multiset{a}| == |owners| - 1
    ensures |owners| == 1 <==> owners == multiset{a}
  {
    var rest := owners - multiset{a};
    assert owners == rest + multiset{a};
    if |owners| == 1 {
      assert |rest| == 0;
      assert rest == multiset{};
    }
  }

  /** Two distinct owners make a count of at least two. */
  lemma TwoOwners(owners: multiset<MyAllocator>, a: MyAllocator, b: MyAllocator)
    requires a in owners && b in owners && a != b
    ensures |owners| >= 2
  {
    var rest := owners - multiset{a};
    assert owners == rest + multiset{a};
    assert b in rest;
  }

  /** `FirstFit` names `k` exactly when `k` has room and no earlier chunk does. */
  lemma {:induction false} FirstFitIsFirst(cursors: seq<nat>, bytes: nat, k: nat)
    requires k < |cursors| && bytes <= CHUNK_SIZE - cursors[k]
    requires forall j :: 0 <= j < k ==> CHUNK_SIZE - cursors[j] < bytes
    ensures FirstFit(cursors, bytes) == Some(k)
  {
    if k > 0 {
      FirstFitIsFirst(cursors[1..], bytes, k - 1);
    }
  }

  lemma {:induction false} FirstFitNone(cursors: seq<nat>, bytes: nat)
    requires forall j :: 0 <= j < |cursors| ==> CHUNK_SIZE - cursors[j] < bytes
    ensures FirstFit(cursors, bytes) == None
  {
    if cursors != [] {
      FirstFitNone(cursors[1..], bytes);
    }
  }
}

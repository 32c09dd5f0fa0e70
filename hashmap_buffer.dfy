/**
 The slot buffer behind Open3D's hash map: one key region and an ordered list
 of value regions, all `capacity` elements long and indexed by the same slot
 address, plus the index heap (a free list of slot addresses) and the heap top
 counter that Allocate and Free step.

 Regions are kept abstractly: a length, an element byte size and a device; the
 bytes they hold are not modelled. The heap top has a device-specific
 representation (a host integer on CPU, a one-element device buffer on CUDA);
 both present one logical counter.
 */
module Hashmap {
  import opened IndexHeap

  datatype DeviceType = CPU | CUDA

  /** A storage region of `length` opaque elements of `dsize` bytes each. */
  datatype Region = Region(length: int, dsize: int, device: DeviceType)
  {
    /** The whole region's size in bytes: `length` elements of `dsize` bytes. */
    function TotalBytes(): int
    {
      length * dsize
    }
  }

  datatype Error = OutOfBound(index: nat, size: nat)

  datatype Result<T> = Success(value: T) | Failure(error: Error)

  /**
   The heap top. Both representations exist on every buffer; `device` selects
   the one that holds the counter: `cpu` on CPU, the one element of `cuda` on
   CUDA (on CPU `cuda` is an empty buffer).
   */
  datatype HeapTop = HeapTop(cuda: seq<int>, cpu: int)
  {
    predicate Represents(device: DeviceType)
    {
      device == CUDA ==> |cuda| == 1
    }

    /** The logical counter held by the representation `device` selects. */
    function Index(device: DeviceType): int
      requires Represents(device)
    {
      if device == CUDA then cuda[0] else cpu
    }

    /**
     The heap top after the active representation is set to `v`: it reads back
     as `v` and the other representation is untouched.
     */
    function WithIndex(device: DeviceType, v: int): (r: HeapTop)
      requires Represents(device)
      ensures r.Represents(device) && r.Index(device) == v
      ensures device == CPU ==> r.cuda == cuda
      ensures device == CUDA ==> r.cpu == cpu
    {
      if device == CUDA then HeapTop([v], cpu) else HeapTop(cuda, v)
    }
  }

  /** Writing back the counter just read changes nothing, on either device. */
  lemma WithOwnIndex(top: HeapTop, device: DeviceType)
    requires top.Represents(device)
    ensures top.WithIndex(device, top.Index(device)) == top
  {
  }

  class HashmapBuffer {
    var device: DeviceType
    var heap: array<int>
    var heapTop: HeapTop
    var keyBuffer: Region
    var valueBuffers: seq<Region>
    /** The slot addresses currently handed out. */
    ghost var inUse: set<int>

    /**
     Shape: every region is `capacity` long and lives on the buffer's device,
     and the heap top has the representation the device selects.
     */
    ghost predicate Valid()
      reads this
    {
      heap.Length > 0 &&
      keyBuffer.length == heap.Length &&
      keyBuffer.device == device &&
      (forall k :: 0 <= k < |valueBuffers| ==>
         valueBuffers[k].length == heap.Length && valueBuffers[k].device == device) &&
      heapTop.Represents(device)
    }

    /** Shape, and the index heap satisfies the free-list invariant. */
    ghost predicate HeapValid()
      reads this, heap
    {
      Valid() && Inv(heap[..], heapTop.Index(device), inUse)
    }

    /** The allocator state the heap, the counter and the allocated set make up. */
    ghost function State(): HeapState
      reads this, heap
      requires Valid()
    {
      HeapState(heap[..], heapTop.Index(device), inUse)
    }

    /**
     Allocates the index heap, the key region and one value region per entry
     of `dsizeValues`, in order. Neither the heap nor the CUDA heap top is
     initialised here; the CPU heap top starts at 0.
     */
    constructor (capacity: int, dsizeKey: int, dsizeValues: seq<int>, dev: DeviceType)
      requires capacity > 0 && dsizeKey > 0
      requires forall k :: 0 <= k < |dsizeValues| ==> dsizeValues[k] > 0
      ensures Valid() && fresh(heap)
      ensures device == dev && heap.Length == capacity
      ensures keyBuffer == Region(capacity, dsizeKey, dev)
      ensures |valueBuffers| == |dsizeValues|
      ensures forall k :: 0 <= k < |dsizeValues| ==> valueBuffers[k] == Region(capacity, dsizeValues[k], dev)
      ensures dev == CPU ==> GetHeapTopIndex() == 0
      ensures inUse == {}
    {
      device := dev;
      heap := new int[capacity];
      keyBuffer := Region(capacity, dsizeKey, dev);
      valueBuffers := [];
      heapTop := HeapTop([], 0);
      inUse := {};
      new;
      var i := 0;
      while i < |dsizeValues|
        invariant 0 <= i <= |dsizeValues|
        invariant device == dev && fresh(heap) && heap.Length == capacity
        invariant keyBuffer == Region(capacity, dsizeKey, dev)
        invariant heapTop == HeapTop([], 0) && inUse == {}
        invariant |valueBuffers| == i
        invariant forall k :: 0 <= k < i ==> valueBuffers[k] == Region(capacity, dsizeValues[k], dev)
      {
        valueBuffers := valueBuffers + [Region(capacity, dsizeValues[i], dev)];
        i := i + 1;
      }
      if dev == CUDA {
        // a one-element device buffer whose content is left as allocated
        var top := new int[1];
        heapTop := HeapTop([top[0]], heapTop.cpu);
      }
    }

    /** The device every region and the heap top live on. */
    function GetDevice(): (r: DeviceType)
      reads this
      requires Valid()
      ensures r == keyBuffer.device
      ensures forall k :: 0 <= k < |valueBuffers| ==> valueBuffers[k].device == r
    {
      device
    }

    /** The capacity, which is the length of the heap and of every region. */
    function GetCapacity(): (r: int)
      reads this
      requires Valid()
      ensures r == keyBuffer.length
      ensures forall k :: 0 <= k < |valueBuffers| ==> valueBuffers[k].length == r
    {
      heap.Length
    }

    /** The key's element size in bytes. */
    function GetKeyDsize(): (r: int)
      reads this
      requires Valid()
      ensures r == keyBuffer.dsize && keyBuffer.TotalBytes() == GetCapacity() * r
    {
      keyBuffer.dsize
    }

    /** The value element sizes in bytes, one per value region, in order. */
    method GetValueDsizes() returns (dsizes: seq<int>)
      ensures |dsizes| == |valueBuffers|
      ensures forall k :: 0 <= k < |dsizes| ==> dsizes[k] == valueBuffers[k].dsize
    {
      dsizes := [];
      var i := 0;
      while i < |valueBuffers|
        invariant 0 <= i <= |valueBuffers|
        invariant |dsizes| == i
        invariant forall k :: 0 <= k < i ==> dsizes[k] == valueBuffers[k].dsize
      {
        dsizes := dsizes + [valueBuffers[i].dsize];
        i := i + 1;
      }
    }

    /** The index heap, shared with the caller: one address per slot. */
    function GetIndexHeap(): (r: array<int>)
      reads this
      requires Valid()
      ensures r.Length == keyBuffer.length
    {
      heap
    }

    /**
     The current heap top, read from the representation the device selects.
     While the free-list invariant holds it is the number of allocated slots.
     */
    function GetHeapTopIndex(): (top: int)
      reads this, heap
      requires Valid()
      ensures HeapValid() ==> 0 <= top <= GetCapacity() && |inUse| == top
    {
      AllocatedCount(heap[..], heapTop.Index(device), inUse);
      heapTop.Index(device)
    }

    /** The key region. */
    function GetKeyBuffer(): (r: Region)
      reads this
      requires Valid()
      ensures r.length == GetCapacity() && r.device == GetDevice()
    {
      keyBuffer
    }

    /** The value regions, each reachable by its column index. */
    function GetValueBuffers(): (r: seq<Region>)
      reads this
      requires Valid()
      ensures forall k :: 0 <= k < |r| ==> GetValueBuffer(k) == Success(r[k])
      ensures forall k :: 0 <= k < |r| ==> r[k].length == GetCapacity()
      ensures GetValueBuffer(|r|).Failure?
    {
      valueBuffers
    }

    /**
     The value region of column `i`; an out-of-bound error exactly when `i` is
     not below the number of value regions.
     */
    function GetValueBuffer(i: nat): (r: Result<Region>)
      reads this
      requires Valid()
      ensures r.Failure? <==> i >= |valueBuffers|
      ensures r.Failure? ==> r.error == OutOfBound(i, |valueBuffers|)
      ensures r.Success? ==> r.value == valueBuffers[i] && r.value.length == GetCapacity()
    {
      if i >= |valueBuffers| then Failure(OutOfBound(i, |valueBuffers|)) else Success(valueBuffers[i])
    }

    /**
     Puts the heap in the state Allocate and Free start from: heap[i] = i and
     the counter at 0, with no slot allocated.
     */
    method Reset()
      requires Valid()
      modifies this`heapTop, this`inUse, heap
      ensures HeapValid()
      ensures heap[..] == Identity(heap.Length)
      ensures GetHeapTopIndex() == 0 && inUse == {}
    {
      var i := 0;
      while i < heap.Length
        invariant 0 <= i <= heap.Length
        invariant forall k :: 0 <= k < i ==> heap[k] == k
        invariant heapTop == old(heapTop)
      {
        heap[i] := i;
        i := i + 1;
      }
      assert heap[..] == Identity(heap.Length);
      heapTop := heapTop.WithIndex(device, 0);
      inUse := {};
      InitialInv(heap.Length);
    }

    /**
     Takes the address at the counter and moves the counter up by one. The
     address is in range and was free; the heap array is not written.
     */
    method Allocate() returns (addr: int)
      requires HeapValid()
      requires GetHeapTopIndex() < GetCapacity()
      modifies this`heapTop, this`inUse
      ensures HeapValid()
      ensures addr == old(heap[GetHeapTopIndex()])
      ensures GetHeapTopIndex() == old(GetHeapTopIndex()) + 1
      ensures heap[..] == old(heap[..])
      ensures 0 <= addr < GetCapacity() && addr !in old(inUse)
      ensures inUse == old(inUse) + {addr}
      ensures State() == Step(old(State()), AllocOp)
    {
      var index := heapTop.Index(device);
      AllocPreservesInv(heap[..], index, inUse);
      heapTop := heapTop.WithIndex(device, index + 1);
      addr := heap[index];
      inUse := inUse + {addr};
    }

    /**
     Moves the counter down by one and writes `addr` at the new counter
     position; no other heap entry changes. The caller must pass an address
     that is currently allocated.
     */
    method Free(addr: int)
      requires HeapValid()
      requires addr in inUse
      modifies this`heapTop, this`inUse, heap
      ensures HeapValid()
      ensures GetHeapTopIndex() == old(GetHeapTopIndex()) - 1
      ensures heap[..] == old(heap[..])[GetHeapTopIndex() := addr]
      ensures inUse == old(inUse) - {addr}
      ensures State() == Step(old(State()), FreeOp(addr))
    {
      ghost var before := State();
      FreePreservesInv(before.heap, before.top, before.inUse, addr);
      var index := heapTop.Index(device) - 1;
      heapTop := heapTop.WithIndex(device, index);
      heap[index] := addr;
      inUse := inUse - {addr};
      assert heap[..] == before.heap[index := addr];
      assert State() == Step(before, FreeOp(addr));
    }
  }

  /**
   Allocate followed by Free of the address it returned leaves the heap, the
   counter and the allocated set exactly as they were.
   */
  method AllocThenFree(buffer: HashmapBuffer)
    requires buffer.HeapValid()
    requires buffer.GetHeapTopIndex() < buffer.GetCapacity()
    modifies buffer, buffer.heap
    ensures buffer.HeapValid()
    ensures buffer.heap[..] == old(buffer.heap[..])
    ensures buffer.GetHeapTopIndex() == old(buffer.GetHeapTopIndex())
    ensures buffer.inUse == old(buffer.inUse)
  {
    var addr := buffer.Allocate();
    buffer.Free(addr);
  }

  /**
   A freshly constructed buffer reports the capacity, key size and value sizes
   it was built with, in order, and on CPU a heap top of 0.
   */
  method FreshBufferShape(capacity: int, dsizeKey: int, dsizeValues: seq<int>, dev: DeviceType)
    returns (cap: int, keyDsize: int, valueDsizes: seq<int>, top: int)
    requires capacity > 0 && dsizeKey > 0
    requires forall k :: 0 <= k < |dsizeValues| ==> dsizeValues[k] > 0
    ensures cap == capacity && keyDsize == dsizeKey && valueDsizes == dsizeValues
    ensures dev == CPU ==> top == 0
  {
    var buffer := new HashmapBuffer(capacity, dsizeKey, dsizeValues, dev);
    cap := buffer.GetCapacity();
    keyDsize := buffer.GetKeyDsize();
    valueDsizes := buffer.GetValueDsizes();
    top := buffer.GetHeapTopIndex();
  }

  /**
   The trace the buffer's header draws: from heap[i] = i, Malloc yields 0,
   Malloc yields 1, Free(0) puts 0 back at position 1, and the next Malloc
   yields 0 again; the same on either device.
   */
  method HeaderTrace(capacity: int, dev: DeviceType)
    returns (first: int, second: int, atOne: int, reused: int)
    requires capacity >= 2
    ensures first == 0 && second == 1 && atOne == 0 && reused == 0
  {
    var buffer := new HashmapBuffer(capacity, 1, [1], dev);
    buffer.Reset();
    first := buffer.Allocate();
    second := buffer.Allocate();
    buffer.Free(first);
    atOne := buffer.heap[1];
    reused := buffer.Allocate();
  }
}

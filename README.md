# Open3D hash-map slot buffer, in Dafny

This project models `HashmapBuffer`, the fixed-capacity storage behind Open3D's
hash map. The buffer holds:

- one key region and an ordered list of value regions, each `capacity` elements
  long and all indexed by the same slot address;
- the index heap, an array of `capacity` slot addresses used as a stack-style
  free list;
- the heap top, a counter whose representation depends on the device (a host
  atomic integer on CPU, a one-element device buffer on CUDA).

Allocate takes the address at `heap[top]` and moves the counter up by one.
Free moves the counter down by one and writes the freed address at
`heap[top]`. The counter counts allocated slots and starts at 0. Only the part
of the heap at or above the counter is maintained.

Two modules:

- `IndexHeap` (`index_heap.dfy`) states the free-list invariant on plain
  sequences. The counter is in range. The entries at or above it are
  distinct and not allocated. Allocated and free addresses together make up
  exactly `[0, capacity)`. The module proves that both steps keep the
  invariant, that the counter equals the number of allocated slots, the
  exhaustion boundary and the LIFO behaviour. It also proves that any legal
  sequence of calls keeps the invariant, that balanced sequences conserve the
  count, and that successive allocations hand out distinct addresses (in
  order 0, 1, 2, … from the starting heap).
- `Hashmap` (`hashmap_buffer.dfy`) holds the `HashmapBuffer` class. Its
  fields are the heap `array`, the `HeapTop` value and the regions, plus a
  ghost set of allocated addresses. It has the constructor, the getters, and
  `Reset`/`Allocate`/`Free` methods that change the heap and counter in place.
  Each method is proved against the `IndexHeap` invariant.

Behaviour of the code that the model keeps:

- The counter counts allocated slots and starts at 0
  (`cpp/open3d/core/hashmap/HashmapBuffer.h:65`, the diagram at `:43`). The
  free addresses are `heap[top..]`.
- The constructor checks nothing, so positive sizes and capacity are
  preconditions of the constructor.
- The constructor accepts an empty list of value sizes.
- There is no exhaustion report in this header: reading past the end of the
  heap is prevented only by the caller. So `Allocate` requires the counter to
  be below the capacity.
- The constructor leaves the index heap and the CUDA heap top uninitialised
  (`:72`, `:90`). In the model both start with arbitrary contents, and `Reset`
  sets up the starting state the header's diagram draws (`heap[i] = i`,
  counter 0).

## Model

| member | source | states |
|---|---|---|
| `Hashmap.HashmapBuffer.constructor` | cpp/open3d/core/hashmap/HashmapBuffer.h:68-92 | the heap and the key region have `capacity` elements. There is one value region per requested size, in order, each `capacity` long with that element size. Everything is on the requested device. The CPU heap top is 0 and no slot is allocated |
| `Hashmap.HashmapBuffer.GetDevice` | cpp/open3d/core/hashmap/HashmapBuffer.h:95 | the key region and every value region live on the device the buffer reports |
| `Hashmap.HashmapBuffer.GetCapacity` | cpp/open3d/core/hashmap/HashmapBuffer.h:98 | the capacity (the heap length) is the length of the key region and of every value region |
| `Hashmap.HashmapBuffer.GetKeyDsize` | cpp/open3d/core/hashmap/HashmapBuffer.h:101 | returns the key region's element size in bytes; the key region's total size is capacity times it |
| `Hashmap.HashmapBuffer.GetValueDsizes` | cpp/open3d/core/hashmap/HashmapBuffer.h:104-110 | the loop returns exactly one element size per value region, in region order |
| `Hashmap.HashmapBuffer.GetIndexHeap` | cpp/open3d/core/hashmap/HashmapBuffer.h:113 | the index heap has one address per slot (its length is the regions' length) |
| `Hashmap.HashmapBuffer.GetHeapTopIndex` | cpp/open3d/core/hashmap/HashmapBuffer.h:120-125 | the counter is read from the representation the device selects. While the free-list invariant holds, it lies in `[0, capacity]` and equals the number of allocated slots |
| `Hashmap.HashmapBuffer.GetKeyBuffer` | cpp/open3d/core/hashmap/HashmapBuffer.h:128 | the key region is `capacity` long and on the buffer's device |
| `Hashmap.HashmapBuffer.GetValueBuffers` | cpp/open3d/core/hashmap/HashmapBuffer.h:131 | the k-th region of the list is what `GetValueBuffer(k)` returns, each is `capacity` long, and the index one past the list fails |
| `Hashmap.HashmapBuffer.GetValueBuffer` | cpp/open3d/core/hashmap/HashmapBuffer.h:134-140 | fails with an out-of-bound error carrying the index and the column count exactly when `i >= |value_buffers_|`. Otherwise it returns the i-th region, which is `capacity` long. As a function, it changes no state |
| `Hashmap.HeapTop.WithIndex` | cpp/open3d/core/hashmap/HashmapBuffer.h:63-66 | stepping the counter writes only the representation the device selects (`cpu` on CPU, the one-element `cuda` buffer on CUDA). Afterwards the counter reads back as the value written |
| `Hashmap.WithOwnIndex` | cpp/open3d/core/hashmap/HashmapBuffer.h:120-125 | on either device, writing back the counter just read leaves the heap top unchanged (one logical counter per representation) |
| `Hashmap.HashmapBuffer.Reset` | cpp/open3d/core/hashmap/HashmapBuffer.h:35-43 | sets the diagram's starting state: `heap[i] = i`, counter 0, no slot allocated. The free-list invariant holds afterwards |
| `Hashmap.HashmapBuffer.Allocate` | cpp/open3d/core/hashmap/HashmapBuffer.h:27-43 | returns the address at the old counter, which is in range and was free. The counter rises by 1, the heap array is unchanged, the address joins the allocated set, and the invariant is kept. The new state is `Step(old state, AllocOp)` |
| `Hashmap.HashmapBuffer.Free` | cpp/open3d/core/hashmap/HashmapBuffer.h:27-43 | the counter drops by 1 and the address is written at the new counter position. No other heap entry changes, the address leaves the allocated set, and the invariant is kept. The new state is `Step(old state, FreeOp(addr))` |
| `Hashmap.FreshBufferShape` | cpp/open3d/core/hashmap/HashmapBuffer.h:68-125 | on a fresh buffer the getters return the construction capacity, the key size and the value sizes (equal to the argument list). A CPU buffer's heap top is 0 |
| `Hashmap.HeaderTrace` | cpp/open3d/core/hashmap/HashmapBuffer.h:35-43 | the header's trace on either device: from `heap[i] = i`, Malloc yields 0, then Malloc yields 1. Free(0) puts 0 at position 1, and the next Malloc yields 0 |
| `IndexHeap.AllocRun` | cpp/open3d/core/hashmap/HashmapBuffer.h:32 | `k` successive allocations from counter `top` hand out `heap[top..top+k]`, in order |
| `IndexHeap.AllocatedCount` | cpp/open3d/core/hashmap/HashmapBuffer.h:27-43 | under the invariant, the heap counter equals the number of allocated slots |
| `IndexHeap.InitialInv` | cpp/open3d/core/hashmap/HashmapBuffer.h:35-43 | the starting heap `heap[i] = i` with counter 0 and nothing allocated satisfies the invariant |
| `IndexHeap.AllocPreservesInv` | cpp/open3d/core/hashmap/HashmapBuffer.h:27-32 | the address at the counter is in `[0, capacity)` and not allocated. After the counter moves up, the invariant holds with that address allocated |
| `IndexHeap.FreePreservesInv` | cpp/open3d/core/hashmap/HashmapBuffer.h:27-33 | freeing an allocated address finds the counter above 0. After the write at the decremented counter, the invariant holds with the address freed |
| `IndexHeap.ExhaustedIffAllAllocated` | cpp/open3d/core/hashmap/HashmapBuffer.h:27-31 | the counter equals the capacity exactly when every address in `[0, capacity)` is allocated (both directions) |
| `Hashmap.AllocThenFree` | cpp/open3d/core/hashmap/HashmapBuffer.h:32-43 | on a buffer satisfying the invariant with a free slot, Allocate followed by Free of the returned address leaves the heap array, the counter and the allocated set exactly as they were |
| `IndexHeap.StepKeepsInv` | cpp/open3d/core/hashmap/HashmapBuffer.h:27-43 | one enabled Allocate or Free keeps the invariant and moves the counter up or down by exactly one |
| `IndexHeap.RunKeepsInv` | cpp/open3d/core/hashmap/HashmapBuffer.h:27-43 | any legal sequence of Allocate and Free calls keeps the invariant. The counter and the number of allocated slots end at the start value plus the Allocates minus the Frees |
| `IndexHeap.BalancedRunConserves` | cpp/open3d/core/hashmap/HashmapBuffer.h:27-43 | after a legal sequence with as many Frees as Allocates, the counter and the number of allocated slots equal their start values |
| `IndexHeap.FreeThenAllocReturnsFreed` | cpp/open3d/core/hashmap/HashmapBuffer.h:33-43 | LIFO: after Free(a) the next Allocate returns `a`. The state after both satisfies the invariant with the original allocated set |
| `IndexHeap.AllocRunDistinct` | cpp/open3d/core/hashmap/HashmapBuffer.h:27-32 | `k` successive allocations hand out distinct addresses in range that were not allocated. Afterwards the invariant holds with all of them allocated |
| `IndexHeap.FreshRunInOrder` | cpp/open3d/core/hashmap/HashmapBuffer.h:35-43 | from the starting heap, allocations hand out 0, 1, 2, … in order. `capacity` of them hand out every address exactly once |

## Left out

- Concurrency: the `std::atomic<int>` heap top, the device-resident top and the
  concurrent fetch-add from many host threads or CUDA lanes are not modelled.
  Each Allocate and Free is one sequential step on one logical counter.
- The Allocate, Free and Reset code lives in the CPU and CUDA accessor files,
  which are not part of this model. These three methods follow the header's
  comment and diagram.
- `GetHeapTop`, which hands the accessors a mutable reference to the heap-top
  struct, is not a separate member. In the model the accessors' steps are
  methods of the buffer class, and they update `heapTop` themselves.
- Tensor, Dtype and memory-manager internals are not modelled. A region keeps
  only its length, element byte size and device type. The dtype name strings
  (`_hash_k`, `_hash_v_<i>`), the device id and the byte contents of keys and
  values are not modelled.
- Integer widths: addresses (`uint32`), the counter (`int`) and the capacity
  (`int64`) are unbounded integers. A capacity above the 32-bit counter's range
  is not modelled.
- `Hashmap.HashmapBuffer.GetValueBuffer`: the C++ default argument `i = 0` is
  not modelled. The logged out-of-bound error, which throws, is returned as a
  `Failure`.
- `Hashmap.HashmapBuffer.Allocate`: requires the counter to be below capacity,
  because the source has no exhaustion check at this layer. Reading past the
  heap is not modelled.
- `Hashmap.HashmapBuffer.Free`: requires the address to be currently allocated.
  That is the caller's obligation in the source and is not checked there. A
  double free, which corrupts the heap, is not modelled.
- The benchmark harness, the Eigen conversion declarations and the RealSense
  capture script are outside the buffer and not modelled.

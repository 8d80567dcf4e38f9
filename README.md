# D3D12 renderer core, modelled in Dafny

This project models the bookkeeping at the heart of a Direct3D 12
renderer. It covers:

- the render graph's handles, resource registry and debug views;
- the upload ring buffer and the scratch (linear) allocator;
- command-context barrier batching and command-list pooling;
- deferred deletion of device objects behind fences;
- the ray-tracing shader binding table;
- the CPU and GPU profilers with their time histories;
- command-line parsing;
- the shader manager: include handling, cache lookup and hot-reload bookkeeping;
- buffer creation and `SetData`.

The GPU, the operating system and the compiler are not modelled. Fence
completion, file times, file contents, compilation and descriptor
allocation are parameters of the operations that use them.

Each source file becomes one Dafny module:

- A C++ class whose methods update fields becomes a Dafny `class`. Its
  methods carry `modifies` clauses, and its loops carry invariants.
- Pure computations become functions with named results.
- The properties the design relies on are lemmas about those functions.
- A source defect becomes a pair: a member that behaves as written, with
  a lemma exhibiting the defect, and a corrected member with the intended
  property proved (see "## Findings").

| file | module | models |
|---|---|---|
| common.dfy | `Common` | `Option`, alignment, powers of two, shared sequence helpers |
| render_graph_definitions.dfy | `RenderGraphDefinitions` | `D3D12/Graphics/RenderGraph/RenderGraphDefinitions.h` |
| render_graph.dfy | `RenderGraph` | `D3D12/Graphics/RenderGraph/RenderGraph.h` |
| render_graph_debug.dfy | `RenderGraphDebug` | `D3D12/Graphics/RenderGraph/RenderGraphDebug.cpp` |
| ring_buffer_allocator.dfy | `RingBufferAllocator` | `D3D12/Graphics/RHI/RingBufferAllocator.cpp` |
| scratch_allocator.dfy | `ScratchAllocator` | `Source/RHI/ScratchAllocator.cpp` |
| command_context.dfy | `CommandContext` | `D3D12/CommandContext.cpp` |
| graphics.dfy | `Graphics` | `D3D12/Graphics/Core/Graphics.cpp` |
| shader_binding_table.dfy | `ShaderBindingTable` | `D3D12/Graphics/Core/ShaderBindingTable.cpp` |
| time_history.dfy | `TimeHistory` | `TimeHistory` in `D3D12/Graphics/Profiler.h` |
| profiler.dfy | `Profiler` | `Source/Core/Profiler.cpp` |
| command_line.dfy | `CommandLine` | `Source/Core/CommandLine.cpp` |
| shader.dfy | `Shader` | `D3D12/Graphics/RHI/Shader.cpp` |
| buffer.dfy | `Buffer` | `D3D12/Graphics/Buffer.cpp` |

## Model

| member | source | states |
|---|---|---|
| RenderGraphDefinitions.DefaultHandle | D3D12/Graphics/RenderGraph/RenderGraphDefinitions.h:36-51 | a default-constructed handle holds the largest 16-bit value and is not valid |
| RenderGraphDefinitions.HandleFromId | D3D12/Graphics/RenderGraph/RenderGraphDefinitions.h:38-43 | a handle built from an id reports that id and is valid exactly when the id is below the invalid value |
| RenderGraphDefinitions.Resource.constructor | D3D12/Graphics/RenderGraph/RenderGraphDefinitions.h:63-66 | a resource is imported exactly when it is given a physical resource; the raw pointer and the owning reference both start as that resource; the access handles start invalid |
| RenderGraphDefinitions.Resource.SetResource | D3D12/Graphics/RenderGraph/RenderGraphDefinitions.h:73-77 | after attaching a resource, or a null one, the owning reference and the raw pointer are both that resource, and nothing else changes |
| RenderGraphDefinitions.Resource.Release | D3D12/Graphics/RenderGraph/RenderGraphDefinitions.h:79-83 | releasing clears the owning reference only; the raw pointer stays for execution |
| RenderGraphDefinitions.Resource.Get | D3D12/Graphics/RenderGraph/RenderGraphDefinitions.h:111-115 | `Get` needs a physical resource and returns it |
| RenderGraph.NewResource | D3D12/Graphics/RenderGraph/RenderGraph.h:52-58 | a resource is imported exactly when it is given a physical resource; its type follows the description; it starts at version 0 with no references |
| RenderGraph.NewNode | D3D12/Graphics/RenderGraph/RenderGraph.h:86-98 | a node copies its resource's current version and starts with no use flags, no writer and no reads |
| RenderGraph.Find | D3D12/Graphics/RenderGraph/RenderGraph.h:176-184 | the linear search returns the first position holding the handle, or the length exactly when the handle is absent |
| RenderGraph.Pass.constructor | D3D12/Graphics/RenderGraph/RenderGraph.h:146-150 | a new pass keeps its name, flags and id and has no reads, no writes, no callback and no references |
| RenderGraph.Pass.Bind | D3D12/Graphics/RenderGraph/RenderGraph.h:157-163 | binding requires that no callback is bound yet, so a pass is bound at most once |
| RenderGraph.Pass.ReadsFrom | D3D12/Graphics/RenderGraph/RenderGraph.h:176-179 | true exactly when the handle is among the pass's reads |
| RenderGraph.Pass.WritesTo | D3D12/Graphics/RenderGraph/RenderGraph.h:181-184 | true exactly when the handle is among the pass's writes |
| RenderGraph.ContiguousBlocksDisjoint | D3D12/Graphics/RenderGraph/RenderGraph.h:254-272 | blocks handed out back to back lie below the arena offset and never overlap |
| RenderGraph.Allocator.constructor | D3D12/Graphics/RenderGraph/RenderGraph.h:241-243 | a new arena has its size, offset 0 and nothing to destroy |
| RenderGraph.Allocator.Allocate | D3D12/Graphics/RenderGraph/RenderGraph.h:254-272 | under the capacity check, the block starts at the old offset, the offset grows by the object size, the block is disjoint from every earlier block, and only non-plain-data objects are recorded for destruction |
| RenderGraph.Allocator.Destroy | D3D12/Graphics/RenderGraph/RenderGraph.h:245-252 | the destructor runs over exactly the recorded objects, in allocation order |
| RenderGraph.Grow | D3D12/Graphics/RenderGraph/RenderGraph.h:300-348 | a pass leaves the resource and node arrays alone; a resource is appended with its position as id, followed by its first node; nothing already there changes and the arrays stay well formed |
| RenderGraph.GrowAllKeeps | D3D12/Graphics/RenderGraph/RenderGraph.h:300-348 | later additions keep every existing resource and node where it is |
| RenderGraph.CreatedHandleOutlives | D3D12/Graphics/RenderGraph/RenderGraph.h:307-348 | the handle a creator or importer returns stays valid through any later additions and keeps naming the resource it created |
| RenderGraph.Graph.constructor | D3D12/Graphics/RenderGraph/RenderGraph.h:282 | a new graph has an empty arena of the given size and no passes, resources or nodes |
| RenderGraph.Graph.AddPass | D3D12/Graphics/RenderGraph/RenderGraph.h:301-306 | the new pass gets the next id, is appended, and takes its bytes from the arena; resources and nodes are unchanged |
| RenderGraph.Graph.CreateResourceNode | D3D12/Graphics/RenderGraph/RenderGraph.h:343-348 | appends a fresh node for the resource and returns a valid handle to the last node |
| RenderGraph.Graph.AddResource | D3D12/Graphics/RenderGraph/RenderGraph.h:308-336 | the shared body of the four creators: the arrays change as one resource addition, and the handle returned names the new node |
| RenderGraph.Graph.CreateTexture | D3D12/Graphics/RenderGraph/RenderGraph.h:308-313 | the new texture resource is not imported, its id is its position, and the handle names its node |
| RenderGraph.Graph.CreateBuffer | D3D12/Graphics/RenderGraph/RenderGraph.h:315-320 | the new buffer resource is not imported, its id is its position, and the handle names its node |
| RenderGraph.Graph.ImportTexture | D3D12/Graphics/RenderGraph/RenderGraph.h:322-328 | the imported texture is marked imported and holds the given physical resource |
| RenderGraph.Graph.ImportBuffer | D3D12/Graphics/RenderGraph/RenderGraph.h:330-336 | the imported buffer is marked imported and holds the given physical resource |
| RenderGraph.Graph.GetResourceNode | D3D12/Graphics/RenderGraph/RenderGraph.h:350-360 | a valid handle names one of the graph's nodes |
| RenderGraph.Graph.IsValidHandle | D3D12/Graphics/RenderGraph/RenderGraph.h:338-341 | definition: a valid handle whose index is below the node count; that created handles keep it is stated by `CreatedHandleOutlives` |
| RenderGraph.Graph.GetResource | D3D12/Graphics/RenderGraph/RenderGraph.h:362-366 | the resource returned is the one whose id the handle's node records |
| RenderGraph.Graph.GetDesc | D3D12/Graphics/RenderGraph/RenderGraph.h:368-373 | only a texture resource has its texture description read |
| RenderGraphDebug.JoinAppend | D3D12/Graphics/RenderGraph/RenderGraphDebug.cpp:30-32 | a further name is preceded by '/' except when it is the first |
| RenderGraphDebug.HigherBitNameComesLast | D3D12/Graphics/RenderGraph/RenderGraphDebug.cpp:21-38 | names appear from the lowest set bit up: setting a higher bit appends its name at the end |
| RenderGraphDebug.UnnamedBitContributesNothing | D3D12/Graphics/RenderGraph/RenderGraphDebug.cpp:27-34 | a set bit without a name adds nothing to the text |
| RenderGraphDebug.SplitJoin | D3D12/Graphics/RenderGraph/RenderGraphDebug.cpp:30-32 | names free of '/' are recovered from the joined text by splitting at '/' |
| RenderGraphDebug.BitmaskToString | D3D12/Graphics/RenderGraph/RenderGraphDebug.cpp:9-40 | the shifting loop produces the text for the mask: the zero value's name or "NONE" for 0, otherwise the names of the set bits in bit order joined by '/' |
| RenderGraphDebug.PassFlagName | D3D12/Graphics/RenderGraph/RenderGraphDebug.cpp:45-55 | exactly None, Raster, Compute, Copy and NeverCull have names |
| RenderGraphDebug.PassFlagToString | D3D12/Graphics/RenderGraph/RenderGraphDebug.cpp:42-57 | the pass flags' text is the bitmask text under the pass-flag names |
| RenderGraphDebug.InvisibleFlagIsSilent | D3D12/Graphics/RenderGraph/RenderGraphDebug.cpp:47-54 | the Invisible flag never shows in the text, and on its own it gives the empty text |
| RenderGraphDebug.AttachKeepsTree | D3D12/Graphics/RenderGraph/RenderGraphDebug.cpp:311-323 | attaching a new leaf under an existing node keeps the nodes a tree (children after their parent, one parent each) and adds its pass, if any, after the existing ones |
| RenderGraphDebug.OpenSpecNests | D3D12/Graphics/RenderGraph/RenderGraphDebug.cpp:311-318 | the k-th scope a pass opens is a new node named after its event, the first a child of the stack top and each later one a child of the scope opened before it; all are pushed in order; existing nodes keep their labels and children |
| RenderGraphDebug.OpenSpecKeepsTree | D3D12/Graphics/RenderGraph/RenderGraphDebug.cpp:311-318 | opening scopes keeps the nodes a tree under the same unnamed root and adds no pass node |
| RenderGraphDebug.OpenScopes | D3D12/Graphics/RenderGraph/RenderGraphDebug.cpp:311-318 | the loop gives the reference result: one event node per started event, named after the event and attached under the stack top or the scope opened before, each pushed; the tree stays a tree and no pass node is added |
| RenderGraphDebug.CloseScopes | D3D12/Graphics/RenderGraph/RenderGraphDebug.cpp:325-328 | popping n scopes succeeds exactly when the stack holds n entries, and leaves the stack with its top n entries removed |
| RenderGraphDebug.VisitSpecShape | D3D12/Graphics/RenderGraph/RenderGraphDebug.cpp:311-328 | the reference visit of a live pass fails exactly when the stack is empty or runs out; otherwise the tree stays a tree, the pass node is the leaf placed after its event nodes under the innermost opened scope, it is the one pass node added, and the stack is the pushed scopes less the ended ones |
| RenderGraphDebug.VisitPass | D3D12/Graphics/RenderGraph/RenderGraphDebug.cpp:311-328 | the method gives the reference visit, with the shape `VisitShaped` states: a live pass adds its event nodes, then its pass node as a child of the innermost scope it opened (or of the stack top when it opens none), the tree staying a tree with one more pass node, then pops the scopes it ends; it fails exactly when the stack is empty or pops more scopes than it holds |
| RenderGraphDebug.BuildFromSucceeds | D3D12/Graphics/RenderGraph/RenderGraphDebug.cpp:302-331 | the walk from any pass keeps a tree exactly when the stack-depth count over the remaining passes ends at one |
| RenderGraphDebug.PassTreeSucceeds | D3D12/Graphics/RenderGraph/RenderGraphDebug.cpp:302-331 | the pass tree exists exactly when every scope the passes open is closed again, leaving the root alone |
| RenderGraphDebug.BuildPassTree | D3D12/Graphics/RenderGraph/RenderGraphDebug.cpp:302-331 | the loop computes the reference walk over the passes; it yields a tree exactly when every scope opened is closed (the final stack check); its pass nodes are the non-culled passes in order |
| RenderGraphDebug.DumpEdgesAppend | D3D12/Graphics/RenderGraph/RenderGraphDebug.cpp:485-515 | one more access appends its own edges, computed from the writes before it |
| RenderGraphDebug.DumpPassEdges | D3D12/Graphics/RenderGraph/RenderGraphDebug.cpp:595-622 | the loop over one pass's accesses appends exactly that pass's edges and keeps each seen resource's version equal to its write count |
| RenderGraphDebug.DumpAccess | D3D12/Graphics/RenderGraph/RenderGraphDebug.cpp:597-621 | one access adds its read edge (at version > 0 or for an imported resource) and its write edge, and bumps the version on a write |
| RenderGraphDebug.DumpGraphEdges | D3D12/Graphics/RenderGraph/RenderGraphDebug.cpp:576-625 | requires a compiled graph; the edges are those of all accesses in pass order, and the version map holds exactly the accessed resources with their write counts |
| RenderGraphDebug.WriteEdgesCountUp | D3D12/Graphics/RenderGraph/RenderGraphDebug.cpp:506-514 | a resource's write edges carry versions 1, 2, 3, ... in order |
| RenderGraphDebug.ReadEdgesHaveAWriter | D3D12/Graphics/RenderGraph/RenderGraphDebug.cpp:500-504 | every read edge reads a version some write produced or an imported resource, and no edge names a version beyond the writes so far |
| RenderGraphDebug.UnaccessedHasNoWrites | D3D12/Graphics/RenderGraph/RenderGraphDebug.cpp:489-498 | a resource never accessed has no writes, so a missing version is 0 |
| RenderGraphDebug.DistinctProperties | D3D12/Graphics/RenderGraph/RenderGraphDebug.cpp:75-76 | the list of physical resources holds each backing once and exactly the backings seen |
| RenderGraphDebug.GroupMembership | D3D12/Graphics/RenderGraph/RenderGraphDebug.cpp:70-79 | a backing's group holds exactly the non-imported resources on that backing, in resource order |
| RenderGraphDebug.GroupByPhysical | D3D12/Graphics/RenderGraph/RenderGraphDebug.cpp:68-79 | requires a compiled graph; the loop produces the distinct backings in first-seen order and, for each, its group of resources |
| RenderGraphDebug.GroupOne | D3D12/Graphics/RenderGraph/RenderGraphDebug.cpp:72-78 | one resource skips when untracked, otherwise adds its backing if new and joins its group |
| RenderGraphDebug.ColumnSpan | D3D12/Graphics/RenderGraph/RenderGraphDebug.cpp:162-168 | a resource without both access handles is skipped |
| RenderGraphDebug.ColumnSpanCoversAccesses | D3D12/Graphics/RenderGraph/RenderGraphDebug.cpp:162-170 | the columns cover the first to last access, start at 0 for an imported resource and end at the last pass for an exported one |
| RingBufferAllocator.Place | D3D12/Graphics/RHI/RingBufferAllocator.cpp:41-64 | the corrected placement: a placed block fits the buffer and the produce offset moves to its end |
| RingBufferAllocator.PlaceIsDisjoint | D3D12/Graphics/RHI/RingBufferAllocator.cpp:44-61 | a placed block overlaps no in-flight byte, keeps every in-flight byte in flight, and never lets produce catch up with consume |
| RingBufferAllocator.PlaceAsWrittenDiffersOnlyAtConsume | D3D12/Graphics/RHI/RingBufferAllocator.cpp:44-61 | as written, the placement differs from the corrected one only when it would move produce onto consume |
| RingBufferAllocator.PlaceAsWritten | D3D12/Graphics/RHI/RingBufferAllocator.cpp:44-61 | as written: a placement starts at the produce offset or wraps to 0, and moves produce to its end; its defect is stated by `PlaceAsWrittenOverlapsInFlight` and `PlaceAsWrittenDiffersOnlyAtConsume` |
| RingBufferAllocator.PlaceAsWrittenOverlapsInFlight | D3D12/Graphics/RHI/RingBufferAllocator.cpp:44-61 | as written, a full buffer (produce at the end, consume at 6) wraps to 0, after which the "full" state reads as empty and in-flight bytes are handed out again |
| RingBufferAllocator.RingBuffer.constructor | D3D12/Graphics/RHI/RingBufferAllocator.cpp:7-11 | a new ring buffer has both offsets at 0 and nothing retired |
| RingBufferAllocator.RingBuffer.Drain | D3D12/Graphics/RHI/RingBufferAllocator.cpp:29-36 | the loop pops exactly the leading retired entries whose fences are complete, and consume moves to the end of the last one popped |
| RingBufferAllocator.RingBuffer.Allocate | D3D12/Graphics/RHI/RingBufferAllocator.cpp:25-73 | drains completed entries, then places the block as the corrected placement does; a failure leaves produce alone; a success returns the offset, the size and a copy context |
| RingBufferAllocator.RingBuffer.Free | D3D12/Graphics/RHI/RingBufferAllocator.cpp:75-89 | the allocation is retired with the fence value of its execution, that value becomes the last sync, and the allocation's pointers are cleared |
| RingBufferAllocator.RingBuffer.Destroy | D3D12/Graphics/RHI/RingBufferAllocator.cpp:13-23 | the destructor waits on every retired fence value in order, then both offsets are 0 |
| ScratchAllocator.Tagged | Source/RHI/ScratchAllocator.cpp:21-27 | every page is paired with the same sync point, in order |
| ScratchAllocator.ScratchAllocationManager.FreePages | Source/RHI/ScratchAllocator.cpp:21-27 | the loop retires the pages in order, each tagged with the sync point |
| ScratchAllocator.ScratchAllocator.constructor | Source/RHI/ScratchAllocator.cpp:29-32 | a new allocator has no page, offset 0 and no used pages |
| ScratchAllocator.ScratchAllocator.Allocate | Source/RHI/ScratchAllocator.cpp:34-66 | an oversized request gets its own page at offset 0; otherwise the aligned offset is used on the current page or a fresh page is taken when it does not fit; the range is aligned, inside the page, disjoint from every earlier range, and the offset moves past it |
| ScratchAllocator.ScratchAllocator.Free | Source/RHI/ScratchAllocator.cpp:68-75 | every used page is handed to the manager with the sync point; no page and offset 0 remain |
| CommandContext.SubmittedAppend | D3D12/CommandContext.cpp:156 | appending one command adds its barriers, if it is a barrier call, to the end of everything submitted |
| CommandContext.Flush | D3D12/CommandContext.cpp:152-159 | flushing leaves nothing queued and submits the queued barriers after the earlier ones, with none lost or reordered; with nothing queued it changes nothing |
| CommandContext.InsertProperties | D3D12/CommandContext.cpp:243-255 | a transition to the current state does nothing; otherwise exactly one transition follows every barrier queued or submitted before it; the queue stays below its capacity; an immediate transition leaves nothing queued |
| CommandContext.InitializeBufferOrder | D3D12/CommandContext.cpp:211-218 | the transition to COPY_DEST is sent before the copy, and the copy is followed directly by the barrier call ending in the transition to GENERIC_READ; nothing stays queued |
| CommandContext.NonNull | D3D12/CommandContext.cpp:259-268 | packing never yields more heaps than there are slots, and yields one heap per slot exactly when every slot holds a heap |
| CommandContext.NonNullMembership | D3D12/CommandContext.cpp:257-273 | a heap is bound exactly when some type slot holds it, and nothing is bound exactly when every slot is empty |
| CommandContext.DynamicVertexBufferView | D3D12/CommandContext.cpp:168-178 | the view sits at the upload's address, has the element size as stride, and its size holds exactly `elementCount` strides |
| CommandContext.DynamicIndexBufferView | D3D12/CommandContext.cpp:180-190 | the view sits at the upload's address, uses 32-bit indices, and its size holds exactly `elementCount` of them |
| CommandContext.GraphicsResource.constructor | D3D12/CommandContext.cpp:245-253 | a resource starts in the state it is given |
| CommandContext.CommandContext.constructor | D3D12/CommandContext.cpp:15-19 | a new context has no barriers queued, nothing sent and every heap slot empty |
| CommandContext.CommandContext.FlushResourceBarriers | D3D12/CommandContext.cpp:152-159 | the barrier array and the command log change as `Flush` describes |
| CommandContext.CommandContext.InsertResourceBarrier | D3D12/CommandContext.cpp:243-255 | the resource ends in the target state, and the array and the log change as the pure insertion does (see `InsertProperties`) |
| CommandContext.CommandContext.Execute | D3D12/CommandContext.cpp:32-46 | flushes, submits, waits when asked and returns the queue's fence value |
| CommandContext.CommandContext.ExecuteAndReset | D3D12/CommandContext.cpp:48-59 | as `Execute`, then resets the list; the fence value is returned |
| CommandContext.CommandContext.BindDescriptorHeaps | D3D12/CommandContext.cpp:257-273 | the loop packs the non-null heaps in type order and binds them in one call, or binds nothing when all are null |
| CommandContext.CommandContext.SetDescriptorHeap | D3D12/CommandContext.cpp:197-204 | the slot takes the new heap; the heaps are rebound only when it differs from the old one |
| CommandContext.CommandContext.SetDynamicVertexBuffer | D3D12/CommandContext.cpp:168-178 | exactly one vertex-buffer call is sent, with the view `DynamicVertexBufferView` describes |
| CommandContext.CommandContext.SetDynamicIndexBuffer | D3D12/CommandContext.cpp:180-190 | exactly one index-buffer call is sent, with the view `DynamicIndexBufferView` describes |
| CommandContext.CommandContext.InitializeBuffer | D3D12/CommandContext.cpp:211-218 | the resource ends in GENERIC_READ, and the log is as `InitializeBufferOrder` describes |
| Graphics.ResourcesOf | D3D12/Graphics/Core/Graphics.cpp:453-454 | the released resources are those of the popped entries, one each, in queue order |
| Graphics.DeferredDeleteQueue.constructor | D3D12/Graphics/Core/Graphics.cpp:421-424 | a new queue is empty and has released nothing |
| Graphics.DeferredDeleteQueue.EnqueueResource | D3D12/Graphics/Core/Graphics.cpp:433-441 | the resource is appended with its fence and the fence's current value; nothing is released |
| Graphics.DeferredDeleteQueue.Clean | D3D12/Graphics/Core/Graphics.cpp:443-456 | the loop releases exactly the leading entries whose fence is complete, in order, and keeps the rest |
| Graphics.DeferredDeleteQueue.Destroy | D3D12/Graphics/Core/Graphics.cpp:426-431 | once the GPU is idle (every fence complete), cleaning releases every entry in order and leaves the queue empty |
| Graphics.CleanKeepsOrder | D3D12/Graphics/Core/Graphics.cpp:443-456 | a clean splits the queue into a released prefix whose fences were all complete and a kept tail that starts with an incomplete fence |
| Graphics.ReleasedWereComplete | D3D12/Graphics/Core/Graphics.cpp:446-454 | every released entry's fence was complete, and the first kept entry's was not |
| Graphics.QueueTypeOf | D3D12/Graphics/Core/Graphics.cpp:329 | shifting a 64-bit fence value right by 56 gives a type below 256 |
| Graphics.QueueTypeOfEncoded | D3D12/Graphics/Core/Graphics.cpp:327-339 | a fence value with a type in its top byte and a counter below it decodes to that type |
| Graphics.IsFenceCompleteAsksItsQueue | D3D12/Graphics/Core/Graphics.cpp:327-332 | a fence value signalled by a queue of some type is checked against that queue's fence |
| Graphics.IsFenceComplete | D3D12/Graphics/Core/Graphics.cpp:327-332 | definition: the fence of the queue type in the value's top byte is asked; its property is stated by `IsFenceCompleteAsksItsQueue` |
| Graphics.ReuseKeepsPoolValid | D3D12/Graphics/Core/Graphics.cpp:301-305 | the oldest freed context of a type has that type, and popping it keeps the pool invariant |
| Graphics.CreateKeepsPoolValid | D3D12/Graphics/Core/Graphics.cpp:307-316 | a new context gets a fresh number, joins its type's pool, and the pool invariant holds |
| Graphics.FreeKeepsPoolValid | D3D12/Graphics/Core/Graphics.cpp:321-325 | freeing a created context into its type's queue keeps the pool invariant |
| Graphics.ContextPool.constructor | D3D12/Graphics/Core/Graphics.cpp:294-319 | a new pool has no contexts and nothing freed |
| Graphics.ContextPool.AllocateCommandContext | D3D12/Graphics/Core/Graphics.cpp:294-319 | the context returned has the requested type; the oldest freed one of that type is reused and reset, otherwise a new one with the next number is created and pooled |
| Graphics.ContextPool.FreeCommandList | D3D12/Graphics/Core/Graphics.cpp:321-325 | the context joins the back of its own type's free queue; nothing else changes |
| Graphics.PersistentViewHeap.constructor | D3D12/Graphics/Core/Graphics.cpp:357-362 | a new heap has freed nothing |
| Graphics.PersistentViewHeap.FreeViewDescriptor | D3D12/Graphics/Core/Graphics.cpp:364-370 | a valid index is freed exactly once; the invalid sentinel is never freed |
| Graphics.UAVSupportClassification | D3D12/Graphics/Core/Graphics.cpp:475-543 | without the additional-formats cap only R32 float, uint and sint qualify; an unlisted format never does; a device-specific format needs the cap and both typed load and store bits |
| Graphics.CheckUAVSupport | D3D12/Graphics/Core/Graphics.cpp:475-543 | only R32 float, uint and sint are supported without the additional-formats cap; the full classification is stated by `UAVSupportClassification` |
| ShaderBindingTable.ComputeRecordSize | D3D12/Graphics/Core/ShaderBindingTable.cpp:94-97 | the record size is a multiple of 32, holds the identifier and the root arguments, and is less than 32 bytes over them |
| ShaderBindingTable.ComputeRecordSizeIsSmallest | D3D12/Graphics/Core/ShaderBindingTable.cpp:94-97 | no smaller multiple of 32 holds the identifier and the root arguments |
| ShaderBindingTable.Layout | D3D12/Graphics/Core/ShaderBindingTable.cpp:39-46 | the miss and hit tables start on 64-byte boundaries, follow each other in order without overlap, and the total is a multiple of 256 that covers all three |
| ShaderBindingTable.AlignUpSumIsAligned | D3D12/Graphics/Core/ShaderBindingTable.cpp:46 | the sum of two 64-byte-aligned sections is 64-byte aligned |
| ShaderBindingTable.LayoutSectionsDisjoint | D3D12/Graphics/Core/ShaderBindingTable.cpp:39-46 | every byte of every table lies inside the allocation, and no byte belongs to two tables |
| ShaderBindingTable.ShaderBindingTable.constructor | D3D12/Graphics/Core/ShaderBindingTable.cpp:6-10 | a new table has no records bound, zero strides and an empty identifier cache |
| ShaderBindingTable.ShaderBindingTable.CreateRecord | D3D12/Graphics/Core/ShaderBindingTable.cpp:99-119 | a name's identifier is looked up once and cached; a named record carries the cached identifier and the data; an unnamed one gets 32 zero bytes and no data; every identifier is 32 bytes |
| ShaderBindingTable.ShaderBindingTable.BindRayGenShader | D3D12/Graphics/Core/ShaderBindingTable.cpp:12-16 | the ray-generation record is replaced and its size computed from the data count; the record fits that size; the other tables are unchanged; the record stores the identifier the name's lookup cached (looked up only when not yet cached, the cache otherwise unchanged) and the data, or the null identifier and no data when unnamed |
| ShaderBindingTable.ShaderBindingTable.BindMissShader | D3D12/Graphics/Core/ShaderBindingTable.cpp:18-28 | the miss list grows to cover the ray index, padding with null records; only that slot changes; the stride is the largest record size so far; the record stores the identifier the name's lookup cached (looked up only when not yet cached, the cache otherwise unchanged) and the data, or the null identifier and no data when unnamed |
| ShaderBindingTable.ShaderBindingTable.BindHitGroup | D3D12/Graphics/Core/ShaderBindingTable.cpp:30-35 | the record is appended after the earlier ones, and the stride is the largest record size so far; the record stores the identifier the name's lookup cached (looked up only when not yet cached, the cache otherwise unchanged) and the data, or the null identifier and no data when unnamed |
| ShaderBindingTable.TableCopiesPlacement | D3D12/Graphics/Core/ShaderBindingTable.cpp:62-67 | record i of a table is copied to slot i, one stride apart from the table start: record i's own identifier at the slot start, record i's own root arguments right after |
| ShaderBindingTable.TableCopiesInSlots | D3D12/Graphics/Core/ShaderBindingTable.cpp:62-67 | when every record fits the stride, every copy stays in its record's slot and inside the table |
| ShaderBindingTable.ShaderBindingTable.WriteTable | D3D12/Graphics/Core/ShaderBindingTable.cpp:62-67 | the loop writes exactly the reference copies of the table |
| ShaderBindingTable.CommitCopies | D3D12/Graphics/Core/ShaderBindingTable.cpp:53-76 | the copies of a commit are two per ray-generation, miss and hit record |
| ShaderBindingTable.CommitCopiesPlaced | D3D12/Graphics/Core/ShaderBindingTable.cpp:53-76 | the ray-generation record's identifier and arguments are copied first, inside the ray-generation table; miss record i's identifier and arguments go to slot i of the miss table and hit record i's to slot i of the hit table, each inside its table |
| ShaderBindingTable.CommitCopiesFit | D3D12/Graphics/Core/ShaderBindingTable.cpp:39-76 | every copy of a commit ends inside the allocation |
| ShaderBindingTable.ShaderBindingTable.WriteTables | D3D12/Graphics/Core/ShaderBindingTable.cpp:53-76 | writes the reference copies of the three tables, all inside the allocation |
| ShaderBindingTable.ShaderBindingTable.Commit | D3D12/Graphics/Core/ShaderBindingTable.cpp:37-92 | the dispatch description names the three tables at their laid-out addresses with their sizes and strides; the copies are those of the bound records, each copying that record's identifier and arguments to the place the layout gives it; the bound records and strides are cleared |
| ShaderBindingTable.PlaceholderIsTooShort | D3D12/Graphics/Core/ShaderBindingTable.cpp:115-116 | the empty-string placeholder has fewer readable bytes than the 32 that are copied from it; the null identifier has 32 zero bytes |
| TimeHistory.DistinctSlots | D3D12/Graphics/Profiler.h:39 | two sample numbers less than the ring size apart, but different, land in different slots |
| TimeHistory.WindowInRing | D3D12/Graphics/Profiler.h:37-41 | the ring holds the most recent min(entries, size) samples, sample `k` in slot `k % size` |
| TimeHistory.SlotBeforeWrap | D3D12/Graphics/Profiler.h:37-41 | before the ring wraps, slot `k` holds sample `k` |
| TimeHistory.LastSlot | D3D12/Graphics/Profiler.h:39-40 | the newest sample's slot lies inside the ring |
| TimeHistory.LastSlotHoldsNewest | D3D12/Graphics/Profiler.h:37-41 | the slot before the entry count holds the newest sample |
| TimeHistory.LastSlotAsWritten | D3D12/Graphics/Profiler.h:54-57 | as written: the slot `GetLast` reads is inside the ring; that it is not the newest sample's is stated by `GetLastAsWrittenMissesNewest` |
| TimeHistory.GetLastAsWrittenMissesNewest | D3D12/Graphics/Profiler.h:54-57 | with two slots and one sample of 5, the slot read as written holds 0, while the newest sample's slot holds 5 |
| TimeHistory.HistoryOffsetIsOldest | D3D12/Graphics/Profiler.h:70-75 | once the ring has wrapped, the offset handed out names the oldest sample kept; before that it names the first unwritten slot, which is still 0 |
| TimeHistory.UnwrittenSlotIsZero | D3D12/Graphics/Profiler.h:79 | a slot no sample has reached yet holds its initial 0 |
| TimeHistory.TimeHistory.constructor | D3D12/Graphics/Profiler.h:78-79 | a new history has no entries and a zeroed ring |
| TimeHistory.TimeHistory.AddTime | D3D12/Graphics/Profiler.h:37-41 | the sample is recorded and the count goes up by one; the ring keeps holding the window of recent samples |
| TimeHistory.TimeHistory.GetAverage | D3D12/Graphics/Profiler.h:43-52 | the loop sums the valid slots and divides by their count; before the ring wraps this is the mean of all samples |
| TimeHistory.TimeHistory.GetMax | D3D12/Graphics/Profiler.h:59-68 | the loop finds a value no smaller than any valid slot, and one of them unless it is 0; before the ring wraps this is the largest sample |
| TimeHistory.TimeHistory.GetLastAsWritten | D3D12/Graphics/Profiler.h:54-57 | as written, reads the slot the next sample will go to |
| TimeHistory.TimeHistory.GetLast | D3D12/Graphics/Profiler.h:54-57 | corrected: returns the newest sample, or 0 before any was added |
| TimeHistory.TimeHistory.GetHistory | D3D12/Graphics/Profiler.h:70-75 | the count is min(entries, size) and the offset is the next slot to write; the valid slots hold the most recent samples, and after wrapping the offset names the oldest |
| Profiler.ResolveRange | Source/Core/Profiler.cpp:410-424 | a frame's queries are resolved to its latency slot, at most the heap's capacity of them, and the range stays inside the readback buffer |
| Profiler.ResolveRangesDisjoint | Source/Core/Profiler.cpp:410-424 | frames in different latency slots resolve into disjoint ranges of the readback buffer |
| Profiler.SlotsDisjoint | Source/Core/Profiler.cpp:415-417 | two different slots, each filled to at most its width, do not overlap |
| Profiler.QueryHeap.constructor | Source/Core/Profiler.cpp:426-435 | a new heap keeps its capacity and latency and starts at query 0 |
| Profiler.QueryHeap.RecordQuery | Source/Core/Profiler.cpp:400-408 | the counter always advances; the old count is returned while below capacity, the invalid index after that |
| Profiler.QueryHeap.Resolve | Source/Core/Profiler.cpp:410-424 | the start and count are those of `ResolveRange`; the counter is unchanged |
| Profiler.QueryHeap.Reset | Source/Core/Profiler.cpp:426-435 | the counter returns to 0 |
| Profiler.Step | Source/Core/Profiler.cpp:294-323 | one query fails exactly when it is an End on an empty stack; otherwise the pair and event arrays keep their length |
| Profiler.RunAppend | Source/Core/Profiler.cpp:289-327 | processing two runs of queries in turn is processing their concatenation, and a failure stops everything after it |
| Profiler.RunKeepsStack | Source/Core/Profiler.cpp:294-323 | queries that never end more events than they begin succeed, and leave the starting stack in place below the events still open |
| Profiler.MatchingEndPairsBegin | Source/Core/Profiler.cpp:299-321 | a Begin, a balanced run of queries and an End pair the Begin's query with the End's, record the event's depth as the stack depth outside it, and restore the stack |
| Profiler.Resized | Source/Core/Profiler.cpp:287 | the pair array gets one entry per event, keeping the old ones and filling the new ones with no pair |
| Profiler.ExecuteListsClears | Source/Core/Profiler.cpp:289-327 | after a successful execution every executed list's queries are cleared and every other list keeps its own |
| Profiler.StepQuery | Source/Core/Profiler.cpp:294-323 | the array-indexing step computes `Step`, and event indices in range stay in range |
| Profiler.RunList | Source/Core/Profiler.cpp:294-325 | the loop over one list's queries computes `Run` and keeps event indices in range |
| Profiler.GPUProfiler.constructor | Source/Core/Profiler.cpp:100-107 | a new profiler has an event array of the given capacity, an empty stack per queue, no queries, and starts at frame 0 unpaused |
| Profiler.GPUProfiler.BeginEvent | Source/Core/Profiler.cpp:109-141 | while not paused, takes the next event index; within capacity it records a timestamp query for that event on the list, otherwise an invalid Begin; when paused nothing changes |
| Profiler.GPUProfiler.EndEvent | Source/Core/Profiler.cpp:144-160 | while not paused, records an End timestamp query on the list; when paused nothing changes |
| Profiler.GPUProfiler.ExecuteCommandLists | Source/Core/Profiler.cpp:267-328 | paused or on an unknown queue nothing changes; otherwise the lists' queries run against the queue's stack as `ExecuteLists` describes, and it fails exactly when an End meets an empty stack |
| Profiler.GPUProfiler.Tick | Source/Core/Profiler.cpp:162-264 | without the readback loop (see "## Left out"): the frame's event count is the number of Begins, capped at capacity, and the counter restarts; the pause state is taken from the queued one; when running, the frame advances and every heap, query list and pair is reset |
| Profiler.CountQueueSegment | Source/Core/Profiler.cpp:213-232 | when a queue's events are exactly one contiguous run, their count is the run's length |
| Profiler.ScanEndAsWrittenReadsPastFullFrame | Source/Core/Profiler.cpp:227 | as written, with a full frame of one event the scan reads the event after the last one before testing the bound |
| Profiler.ScanEndAsWrittenBelowCapacity | Source/Core/Profiler.cpp:224-228 | below capacity, the scan as written stops at the end of the queue's run or at the event count, whichever comes first |
| Profiler.ScanEndAsWritten | Source/Core/Profiler.cpp:224-228 | as written: a scan that stays inside the event array ends there, after a run of the queue's events; the read past a full frame is stated by `ScanEndAsWrittenReadsPastFullFrame` |
| Profiler.ScanEnd | Source/Core/Profiler.cpp:226-228 | corrected: the bound is tested before the read; the run found holds only the queue's events and ends at a different queue or at the count |
| Profiler.LaterQueuesFollow | Source/Core/Profiler.cpp:216-232 | in events sorted by queue, everything after one queue's run belongs to a later queue |
| Profiler.GroupByQueue | Source/Core/Profiler.cpp:213-232 | corrected: every queue's track lies inside the frame, holds only that queue's events, and holds all of them |
| Profiler.CollectStep | Source/Core/Profiler.cpp:528-540 | taking one more thread appends its events to the frame and its track after the earlier ones |
| Profiler.Tracks | Source/Core/Profiler.cpp:526 | there is one track per thread |
| Profiler.TracksSliceConcat | Source/Core/Profiler.cpp:524-540 | each thread's track is the exact slice of the frame's events that came from that thread |
| Profiler.CPUProfiler.constructor | Source/Core/Profiler.cpp:444-449 | a new profiler has the given number of frame slots, no threads, frame 0 and is not paused |
| Profiler.CPUProfiler.RegisterThread | Source/Core/Profiler.cpp:555-579 | the thread gets the next index and an empty event list and stack |
| Profiler.CPUProfiler.BeginEvent | Source/Core/Profiler.cpp:459-482 | while not paused, the thread's new event is pushed on its stack at the depth of the stack; when paused nothing changes |
| Profiler.CPUProfiler.EndEvent | Source/Core/Profiler.cpp:486-504 | while not paused, the thread's innermost open event is popped; the events are kept |
| Profiler.CPUProfiler.CollectThreads | Source/Core/Profiler.cpp:524-540 | the loop gathers every thread's events, thread after thread, with one track per thread, and empties each thread's list |
| Profiler.CPUProfiler.StoreFrame | Source/Core/Profiler.cpp:524-547 | the frame is stored in its history slot and the next slot's count is reset, as `StoredFrames` describes; the frame index advances |
| Profiler.CPUProfiler.CloseFrame | Source/Core/Profiler.cpp:521-550 | the collected frame is stored, every thread's list is emptied, and the ticking thread opens the new frame's event at depth 1 |
| Profiler.CPUProfiler.Tick | Source/Core/Profiler.cpp:508-551 | the pause state is taken from the queued one; when running, the frame event is ended, all threads' events are stored as one frame, the index advances and the frame event reopens |
| Profiler.StoredFrames | Source/Core/Profiler.cpp:524-547 | only the current and the next history slot change: the current one takes the events and tracks, the next one's count becomes 0 |
| Profiler.ConcatOnlyEvents | Source/Core/Profiler.cpp:528-540 | the collected frame depends only on the threads' events, not on their stacks |
| CommandLine.Substr | Source/Core/CommandLine.cpp:37-48 | the text of a token is taken from its start to the current character, and a start of -1 throws |
| CommandLine.Unquote | Source/Core/CommandLine.cpp:38-62 | an empty value fails; a value in quotes loses one pair of them (a lone quote becomes empty); any other value is kept |
| CommandLine.RunAppend | Source/Core/CommandLine.cpp:17-52 | scanning two pieces of the line in turn is scanning the whole |
| CommandLine.RunStaysFailed | Source/Core/CommandLine.cpp:17-52 | once a step has thrown, nothing after it changes the outcome |
| CommandLine.RunPlain | Source/Core/CommandLine.cpp:17-52 | characters other than quote, dash, equals and space change nothing |
| CommandLine.TokenOpen | Source/Core/CommandLine.cpp:23-32 | after scanning `-key` or `-key=value` the token is open and its text (the key, or the value) starts at the token's start |
| CommandLine.ValuedTokenOpen | Source/Core/CommandLine.cpp:23-32 | after scanning `-key=value` the key is the identifier and the value is pending |
| CommandLine.ValueAfterEquals | Source/Core/CommandLine.cpp:29-30 | the value of `-key=value` starts just after the equals sign |
| CommandLine.KeyOpen | Source/Core/CommandLine.cpp:23-26 | a dash opens a token at the next position |
| CommandLine.ValueOpen | Source/Core/CommandLine.cpp:27-32 | an equals sign takes the text since the dash as the identifier and opens the value |
| CommandLine.StoreToken | Source/Core/CommandLine.cpp:35-50 | ending an open token stores its key with its value, or with "1" for a bare key, and closes it |
| CommandLine.ParseRenderedFrom | Source/Core/CommandLine.cpp:17-72 | space-separated tokens scanned from an idle state, then finished, store exactly those tokens in order |
| CommandLine.ParseRendered | Source/Core/CommandLine.cpp:7-75 | parsing space-separated `-key` and `-key=value` tokens succeeds and stores them in order: the last occurrence of a key wins, and a bare key holds "1" |
| CommandLine.ApplyLastWins | Source/Core/CommandLine.cpp:43-69 | a key holds the value of the last token that names it |
| CommandLine.ApplyKeeps | Source/Core/CommandLine.cpp:43-69 | a key that no token names keeps its entry |
| CommandLine.DoubleSpaceThrows | Source/Core/CommandLine.cpp:35-50 | two spaces in a row take the second token's text from position -1, which throws |
| CommandLine.EmptyValueFails | Source/Core/CommandLine.cpp:58-59 | `-a=` reads the first character of an empty value |
| CommandLine.EmptyLineStoresEmptyKey | Source/Core/CommandLine.cpp:13-70 | an empty line stores the empty key with "1", since the token start is 0 and not -1 |
| CommandLine.SkipSpace | Source/Core/CommandLine.cpp:82 | skipping leading white space leaves a string that does not start with white space |
| CommandLine.StoI | Source/Core/CommandLine.cpp:82 | a number read fits in an `int` |
| CommandLine.NatDigits | Source/Core/CommandLine.cpp:82 | a number's decimal text is a non-empty run of digits |
| CommandLine.DigitsValueOfNatDigits | Source/Core/CommandLine.cpp:82 | the digits of a number spell that number |
| CommandLine.DigitsRead | Source/Core/CommandLine.cpp:82 | all the digits of a number are read, and they spell it |
| CommandLine.StoIRoundTrip | Source/Core/CommandLine.cpp:77-87 | every `int` written in decimal is read back as itself |
| CommandLine.CommandLine.constructor | Source/Core/CommandLine.cpp:4-5 | nothing is parsed at first: no line and no parameters |
| CommandLine.CommandLine.Parse | Source/Core/CommandLine.cpp:7-75 | the line is kept; the parse succeeds exactly when `ParseLine` does, and then the parameters are its result, the earlier ones discarded |
| CommandLine.CommandLine.EndToken | Source/Core/CommandLine.cpp:35-50 | ending a token stores what `Store` stores, and fails exactly when it does |
| CommandLine.CommandLine.GetValue | Source/Core/CommandLine.cpp:95-104 | a value is found exactly when the name was given, and it is the value stored |
| CommandLine.CommandLine.GetBool | Source/Core/CommandLine.cpp:89-93 | true exactly when the name was given, whatever its value |
| CommandLine.CommandLine.GetInt | Source/Core/CommandLine.cpp:77-87 | an absent name gives the default and false; a given one gives `stoi` of its value and true, or fails when `stoi` throws |
| Shader.GetShaderTarget | D3D12/Graphics/RHI/Shader.cpp:51-63 | the target is "lib" exactly for a stage other than the six named ones |
| Shader.TargetNamesStage | D3D12/Graphics/RHI/Shader.cpp:51-63 | each of the six stages has a target of its own that names it back, and "lib" names none of them |
| Shader.FirstEquals | D3D12/Graphics/RHI/Shader.cpp:234 | the position found is the first '=' of the text, or its end when there is none |
| Shader.DefineRoundTrip | D3D12/Graphics/RHI/Shader.cpp:232-242 | every define argument holds '='; a define with '=' is passed unchanged; one without splits back at the first '=' into its name and the given value, or "1" |
| Shader.CompileArguments.constructor | D3D12/Graphics/RHI/Shader.cpp:212-272 | a new argument list is empty |
| Shader.CompileArguments.AddArgument | D3D12/Graphics/RHI/Shader.cpp:215-222 | the argument is appended, then its value when one is given |
| Shader.CompileArguments.AddDefine | D3D12/Graphics/RHI/Shader.cpp:232-242 | "-D" is appended, then the define's text |
| Shader.Lower | D3D12/Graphics/RHI/Shader.cpp:385 | lower-casing keeps the length and maps each character on its own |
| Shader.LastDot | D3D12/Graphics/RHI/Shader.cpp:384 | the position found holds the last '.' of the path, and none is found exactly when the path has no '.' |
| Shader.LowerCharFacts | D3D12/Graphics/RHI/Shader.cpp:385 | lower-casing keeps '.' apart from every other character and is idempotent |
| Shader.Extension | D3D12/Graphics/RHI/Shader.cpp:384 | the extension is empty or shorter than the path, and holds no '.'; see "## Left out" for what is assumed of `Paths::GetFileExtenstion` |
| Shader.DotSuffix | D3D12/Graphics/RHI/Shader.cpp:384 | a dot followed only by non-dots starts the extension |
| Shader.ExtensionH | D3D12/Graphics/RHI/Shader.cpp:382-395 | a path ending in ".h", in any case, has the extension "h" |
| Shader.HlsliTailHasNoDot | D3D12/Graphics/RHI/Shader.cpp:382-395 | the five characters after the dot of ".hlsli" are not dots |
| Shader.SuffixTailLowered | D3D12/Graphics/RHI/Shader.cpp:385 | the tail of a case-insensitive suffix lower-cases to the tail of the suffix |
| Shader.ExtensionHlsli | D3D12/Graphics/RHI/Shader.cpp:382-395 | a path ending in ".hlsli", in any case, has the extension "hlsli" |
| Shader.ValidHasSuffix | D3D12/Graphics/RHI/Shader.cpp:382-395 | a valid include path ends in ".h" or ".hlsli", in any case |
| Shader.ValidIncludeSuffix | D3D12/Graphics/RHI/Shader.cpp:382-395 | an include path is valid exactly when it ends in ".h" or ".hlsli", in any case |
| Shader.IsValidIncludePath | D3D12/Graphics/RHI/Shader.cpp:382-395 | definition: the lower-cased extension is "hlsli" or "h"; its meaning is stated by `ValidIncludeSuffix` and `IncludePathIgnoresCase` |
| Shader.IncludePathIgnoresCase | D3D12/Graphics/RHI/Shader.cpp:382-395 | the extension test gives the same answer for a path and its lower-case form |
| Shader.SuffixIgnoresCase | D3D12/Graphics/RHI/Shader.cpp:385 | ending in a lower-case suffix ignoring case does not depend on the path's case |
| Shader.Include | D3D12/Graphics/RHI/Shader.cpp:339-380 | a file loads exactly when it exists, is not yet on the list (ignoring case), has a header extension and its load succeeds; it is already included exactly when it exists and is on the list; only a load appends it |
| Shader.IncludeKeepsDistinct | D3D12/Graphics/RHI/Shader.cpp:351-374 | the handler's list never holds the same file twice |
| Shader.ReplayGrows | D3D12/Graphics/RHI/Shader.cpp:339-380 | a run of requests gives one outcome each and only adds to the list |
| Shader.ReplayStep | D3D12/Graphics/RHI/Shader.cpp:339-380 | the first request's outcome comes first, then those of the rest from the list it leaves |
| Shader.LoadedAtMostOnce | D3D12/Graphics/RHI/Shader.cpp:351-374 | a header is inlined at most once: two requests that both load name different files |
| Shader.LoadedNotBefore | D3D12/Graphics/RHI/Shader.cpp:351-374 | a request that loads names no file already on the list |
| Shader.IncludeHandler.constructor | D3D12/Graphics/RHI/Shader.cpp:410 | a new handler has included nothing |
| Shader.IncludeHandler.LoadSource | D3D12/Graphics/RHI/Shader.cpp:339-380 | the search loop and the branches give the outcome and the new list that `Include` describes |
| Shader.IncludeHandler.Reset | D3D12/Graphics/RHI/Shader.cpp:402-405 | the list is emptied |
| Shader.FirstExisting | D3D12/Graphics/RHI/Shader.cpp:79-91 | a path found exists |
| Shader.FirstExistingIsFirst | D3D12/Graphics/RHI/Shader.cpp:81-87 | the path found is that of the first include directory holding the file |
| Shader.FirstExistingNone | D3D12/Graphics/RHI/Shader.cpp:79-91 | nothing is found exactly when no include directory holds the file |
| Shader.ResolveFilePath | D3D12/Graphics/RHI/Shader.cpp:79-91 | the loop succeeds exactly when some include directory holds the file, and gives its path, or "" |
| Shader.CacheLookup | D3D12/Graphics/RHI/Shader.cpp:93-149 | the cache is used exactly when the file exists, the source resolves and is not newer, the version is current, the symbol and debug flags match and no include is newer; then the result is the stored one and is a success |
| Shader.TryLoadFromCache | D3D12/Graphics/RHI/Shader.cpp:93-149 | the step-by-step checks, include times tested one by one, give `CacheLookup`'s answer and leave the result as it describes |
| Shader.CacheRoundTrip | D3D12/Graphics/RHI/Shader.cpp:93-169 | a successful result written to the cache reads back as itself for the same job, while the source and its includes are not newer than the file |
| Shader.StaleIncludesKept | D3D12/Graphics/RHI/Shader.cpp:171-514 | as written, a cache rejected for a newer header leaves its include list in the result: the source is listed twice and the stale header stays; the corrected compile lists the source once |
| Shader.SaveToCache | D3D12/Graphics/RHI/Shader.cpp:151-169 | the record written carries the current cache version, and a successful result read back from it is the same result |
| Shader.CompileFrom | D3D12/Graphics/RHI/Shader.cpp:197-519 | the compile keeps the include list it starts from and, only when the source resolves and loads and neither the compiler nor the validator reports anything, appends the source file then the headers loaded; the blob is the starting one or the compiler's object |
| Shader.Compile | D3D12/Graphics/RHI/Shader.cpp:171-519 | corrected (see "## Findings"): an accepted cache gives the stored result; a rejected one compiles from an empty result, so a non-empty include list starts with the resolved source file |
| Shader.CompileAsWritten | D3D12/Graphics/RHI/Shader.cpp:171-200 | definition as written: a rejected cache lookup's partial result is compiled into; its defect is stated by `StaleIncludesKept` |
| Shader.CompileOutcome | D3D12/Graphics/RHI/Shader.cpp:171-520 | an accepted cache gives the stored result; otherwise the compile succeeds exactly when the source resolves and loads and neither the compiler nor the validator reports a message, and a success holds the compiler's object and lists the source, then the headers loaded |
| Shader.CompileResult.Success | D3D12/Graphics/RHI/Shader.cpp:48 | definition: a blob and an empty error message; used by `CompileOutcome` and `CacheRoundTrip` |
| Shader.JobFor | D3D12/Graphics/RHI/Shader.cpp:635-644 | the job compiles the given file and entry point for the stage's target |
| Shader.ShaderManager.constructor | D3D12/Graphics/RHI/Shader.cpp:561-566 | a new manager keeps the shader model and has no include directories, shaders or maps |
| Shader.ShaderManager.AddIncludeDir | D3D12/Graphics/RHI/Shader.cpp:595-609 | the directory is appended; nothing else changes |
| Shader.ShaderManager.Lookup | D3D12/Graphics/RHI/Shader.cpp:622-630 | a shader is found exactly when the file's map names one for the entry point and defines |
| Shader.ShaderManager.AddDependencies | D3D12/Graphics/RHI/Shader.cpp:667-670 | every include now lists the shader's file as a dependent, and nothing else is added: the new map is `AddedDependencies` of the old one, where only the includes' sets gain the file and every other set is kept |
| Shader.ShaderManager.GetShader | D3D12/Graphics/RHI/Shader.cpp:611-674 | built on the corrected compilation (see "## Findings"): without `force` a cached shader is returned untouched; otherwise the job is compiled, a failure returns nothing and changes nothing but the file's map entry, and a success stores the shader into the existing object or a new one, names it in the map and records its dependencies, keeping every other file's dependency sets as they were (`AddedDependencies`) |
| Shader.ShaderManager.Install | D3D12/Graphics/RHI/Shader.cpp:648-672 | a failure changes nothing; a success stores the shader in place or appends it, names it, and records every include it depends on, keeping every other dependency set as it was (`AddedDependencies`) |
| Shader.ShaderManager.OpenFile | D3D12/Graphics/RHI/Shader.cpp:624 | the file's shader map is created empty when missing; nothing else changes |
| Shader.ShaderManager.StoreShader | D3D12/Graphics/RHI/Shader.cpp:658-671 | the object is written at its slot and the map names it; the maps stay consistent |
| Shader.ConsistentOpen | D3D12/Graphics/RHI/Shader.cpp:624 | creating a file's empty map keeps every name pointing at a shader built for it |
| Shader.ConsistentStore | D3D12/Graphics/RHI/Shader.cpp:658-671 | storing a shader at the slot its key already names, or at a new slot, keeps every name pointing at a shader built for it |
| Shader.Named | D3D12/Graphics/RHI/Shader.cpp:671 | afterwards the file's map names the shader for the key |
| Shader.Placed | D3D12/Graphics/RHI/Shader.cpp:658-665 | the object is at its slot, overwriting an existing one or appended, and every other shader is kept |
| Buffer.ResourceDescFor | D3D12/Graphics/Buffer.cpp:19-40 | the resource is one row of stride times count bytes; it is denied to shaders exactly when not a shader resource and open to unordered access exactly when used that way |
| Buffer.HeapFor | D3D12/Graphics/Buffer.cpp:47-62 | the heap is left unset exactly for a storage type other than the three named ones |
| Buffer.Written | D3D12/Graphics/Buffer.cpp:69-70 | the data lands at the offset and every other byte is kept |
| Buffer.SetDataContentsAsWritten | D3D12/Graphics/Buffer.cpp:67-71 | as written (see "## Findings"): the data lands at byte 0 whatever the offset, and the bytes after it are kept |
| Buffer.SetDataContents | D3D12/Graphics/Buffer.cpp:67-71 | corrected: the data lands at the offset and the rest of the buffer is kept |
| Buffer.SetDataAsWrittenIgnoresOffset | D3D12/Graphics/Buffer.cpp:67-71 | as written, one byte set at offset 1 of a two-byte buffer lands at 0; the corrected write puts it at 1 |
| Buffer.ViewFor | D3D12/Graphics/Buffer.cpp:94-124 | a view covers every element, with the buffer's stride unless it is raw |
| Buffer.StructuredViewCoversResource | D3D12/Graphics/Buffer.cpp:99-104 | a structured view spans exactly the bytes of the created resource, whose width `Create` sets at line 28 |
| Buffer.Buffer.constructor | D3D12/Graphics/Buffer.cpp:8-12 | a new buffer has no resource, no contents and the given state |
| Buffer.Buffer.GetSize | D3D12/Graphics/Buffer.cpp:69 | definition: the element count times the stride (see "## Left out"); it bounds the write that `SetData` asserts |
| Buffer.Buffer.Create | D3D12/Graphics/Buffer.cpp:14-65 | the requested resource has the description, state and heap above; the state is COPY_DEST for readback storage, GENERIC_READ for unordered access, and otherwise unchanged |
| Buffer.Buffer.SetDataAsWritten | D3D12/Graphics/Buffer.cpp:67-71 | as written, the data is copied to byte 0 whatever the offset, and the buffer ends in GENERIC_READ |
| Buffer.Buffer.SetData | D3D12/Graphics/Buffer.cpp:67-71 | corrected: the data is copied to the offset, the rest is kept, and the buffer ends in GENERIC_READ |
| Buffer.BufferSRV.constructor | D3D12/Graphics/Buffer.cpp:89-97 | a new view has no parent, no descriptor and no view |
| Buffer.BufferSRV.Create | D3D12/Graphics/Buffer.cpp:89-108 | the parent is set, a descriptor is allocated only when none is held, and the view covers the buffer as `ViewFor` describes |
| Buffer.BufferUAV.constructor | D3D12/Graphics/Buffer.cpp:110-118 | a new view has no parent, no counter, no descriptor and no view |
| Buffer.BufferUAV.Create | D3D12/Graphics/Buffer.cpp:110-128 | as the SRV, and the counter buffer is recorded |

## Left out

- The GPU, the D3D12 device, its queues, command lists, query heaps and fences are not modelled; fence completion is a parameter and `IdleGPU` is taken to complete every fence.
- Render-graph `Compile`, `Execute`, culling, barrier planning and `TexturePool::Allocate`/`Tick` are declared at D3D12/Graphics/RenderGraph/RenderGraph.h:208-209 and 288-289 but their bodies are not part of this model.
- ImGui drawing, the Mermaid and GraphViz text, file writes and `ShellExecuteA` in RenderGraphDebug.cpp are UI and I/O; only the data they are built from is modelled.
- Object construction through the render-graph arena is modelled as a byte count and a destructor list; placement `new` and the object layout are not modelled.
- Device and factory creation, adapter enumeration, the swap chain and the device-removed callback in Graphics.cpp are foreign D3D12 and DXGI calls.
- Mutexes, SRW locks and atomics in Graphics.cpp, RingBufferAllocator.cpp, Shader.cpp and Profiler.cpp are dropped: the model is single-threaded.
- The bytes copied by `memcpy` are modelled as sequences for buffer uploads, as a list of copies with their offsets and contents for shader records, and not at all for query results. The resulting bytes of the upload allocation, including the `Clear` before the shader records are copied (D3D12/Graphics/Core/ShaderBindingTable.cpp:48), are not assembled.
- `CommandContext::Execute`'s release of its allocator, its upload allocator and its dynamic descriptors (D3D12/CommandContext.cpp:37-44) and `Reset` (D3D12/CommandContext.cpp:25-30) call into objects that are not part of this model; only the flush-before-submit order is kept.
- `Buffer::Map`/`Unmap` and `GraphicsResource` mapping are thin wrappers over `ID3D12Resource` and are not modelled.
- DXC itself, validation, reflection, PDB output, the preprocessed-source dump (D3D12/Graphics/RHI/Shader.cpp:413-436), the compiler argument list built at D3D12/Graphics/RHI/Shader.cpp:274-329 and the `Serializer` file format are foreign library code and file I/O; a compilation is a `DxcRun` value and a cache file a `CacheRecord`.
- The file watcher, `RecompileFromFileChange` and `ConditionallyReloadShaders` (D3D12/Graphics/RHI/Shader.cpp:533-593) are driven by operating-system events and are not modelled.
- `StringHash` keys are modelled as the strings themselves, that is as a hash without collisions.
- `CString::StrCmp` is not part of this model; it is taken to be case-insensitive equality of paths.
- `TimeHistory` is instantiated with `float`; the model uses natural numbers, so `GetAverage` is floor division.
- TimeHistory.TimeHistory.GetAverage: requires at least one sample, because with none the source divides by zero.
- Unsigned 32-bit wrap-around of sizes and counts (shader-table strides, query indices, event counts) is not modelled; the model's integers are unbounded.
- `CPUProfiler::Tick` reads the event count from the frame's event list before that list is refilled (Source/Core/Profiler.cpp:525); this is modelled as written and not claimed as a defect, because the frame-stepping around it is not fully visible here.
- `CPUProfiler::Tick` before `Initialize` returns at once (Source/Core/Profiler.cpp:510-511); the model's profiler is initialized by its constructor, so that early return has no counterpart.
- `ColorFromString`, `QueryPerformanceCounter` and the profiler's ImGui views are floating point, clocks and UI.
- The shader-table miss record left unbound is modelled as the all-zero identifier.
- Profiler.GPUProfiler.Tick: the readback loop of Source/Core/Profiler.cpp:178-235 is not part of `Tick`. Left out with it are `m_FrameToReadback`, the wait for every query heap, and the conversion of query ticks to CPU ticks, including the zero ticks of an invalid pair. The event-frame ring (`GetSampleFrame`) and the query-data ring (`GetQueryData`) are left out too: the model keeps the current frame's `Events` and `Pairs` only. `std::sort` by queue is not modelled. `GroupByQueue` models the per-queue grouping of one frame whose events are already sorted, and it is not called from `Tick`. `WaitFrame` and `Resolve` on the heaps are not modelled either.
- Shader.Extension: `Paths::GetFileExtenstion` is not part of this model. It is taken to return the text after the last '.' of the whole path, so a dot in a directory name counts (`dir.v2/file` has the extension `v2/file`). `CString::ToLower` is not part of this model either; `Shader.Lower` takes it to lower-case the ASCII letters A to Z only.
- Buffer.Buffer.GetSize: its definition is not part of this model; it is taken to be the element count times the stride of the buffer's description.
- RGResourceHandle's own definition is not part of this model: RenderGraph.NodeHandle takes it to be a signed index whose invalid value is -1, with `IsValid` testing `Index != -1`, which is how `IsValidHandle` (D3D12/Graphics/RenderGraph/RenderGraph.h:338-341) uses it.
- Common.AlignUp: `Math::AlignUp` is not part of this model; it is taken to return the smallest multiple of the alignment that is not below the value.
- Shader.Combine: `Paths::Combine` is not part of this model and is taken to join with '/'; `Paths::Normalize` and `Paths::ResolveRelativePaths` (D3D12/Graphics/RHI/Shader.cpp:342-343) are dropped, so an include is compared with earlier ones as the path the compiler gave, not in normal form.
- Buffer.Buffer.Create: the memory of a newly created buffer is taken to be zero, which the device does not promise for every heap.
- Buffer.Buffer.SetData: the 64-bit `dataSize` is passed to the 32-bit size parameter of `InitializeBuffer` (D3D12/Graphics/Buffer.cpp:70 and D3D12/CommandContext.cpp:211); the truncation of copies of 4 GiB and more is not modelled.
- The Win32 entry point, the demo application, the rendering techniques and the data-only headers have no bookkeeping of their own to model.

## Findings

| source | as written | input that shows it | evidently intended | confidence | as-written member | corrected member |
|---|---|---|---|---|---|---|
| D3D12/Graphics/RHI/RingBufferAllocator.cpp:44-61 | an allocation may move the produce offset onto the consume offset, after which a full buffer reads as empty | capacity 10, consume 6, produce 10: a request of 6 wraps to `[0,6)`, produce becomes 6 and the bytes `[6,10)` still in flight are handed out again | a placement never lets produce catch up with consume | not executed | RingBufferAllocator.PlaceAsWrittenOverlapsInFlight | RingBufferAllocator.PlaceIsDisjoint |
| D3D12/Graphics/Profiler.h:54-57 | `GetLast` reads slot `Entries % SIZE`, the next slot to be written | a history of size 2 holding the one sample 5: `GetLast` returns 0 | the most recent sample, slot `(Entries - 1) % SIZE` | not executed | TimeHistory.GetLastAsWrittenMissesNewest | TimeHistory.LastSlotHoldsNewest |
| Source/Core/Profiler.cpp:227 | the grouping loop reads `events[End]` before testing `End < NumEvents` | a frame whose event buffer is full, for example capacity 1 with one event: the loop reads one past the end | the bound is tested before the read | not executed | Profiler.ScanEndAsWrittenReadsPastFullFrame | Profiler.GroupByQueue |
| D3D12/Graphics/RHI/Shader.cpp:171-200 | when the cache is rejected, the include list it filled is kept and the fresh compile appends to it | a cache file listing `d/a.hlsl` and `d/old.hlsli` that is older than `d/old.hlsli`: the result lists `d/a.hlsl`, `d/old.hlsli`, `d/a.hlsl` | the includes of the compilation that produced the result | not executed | Shader.StaleIncludesKept | Shader.CompileOutcome |
| D3D12/Graphics/Buffer.cpp:67-71 | `SetData` checks `offset` but copies the data to the start of the buffer | a two-byte buffer `[0,0]`, data `[1]`, offset 1: the buffer becomes `[1,0]` | the data lands at `offset`: `[0,1]` | not executed | Buffer.SetDataAsWrittenIgnoresOffset | Buffer.SetDataContents |
| D3D12/Graphics/Core/ShaderBindingTable.cpp:115-116 | a null name yields the placeholder `""`, one readable byte, while `Commit` copies a full 32-byte identifier from it | any `BindMissShader` or hit group bound with a null name | a 32-byte all-zero identifier | not executed | ShaderBindingTable.PlaceholderIsTooShort | ShaderBindingTable.ShaderBindingTable.CreateRecord |

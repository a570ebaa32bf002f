# TrackOutput: a verified model of one timeline track

This project models `TrackOutput` from the Olive video editor
(`app/node/output/track/track.cpp`). A track keeps an ordered chain of
time-bounded blocks (clips and gaps), joined by `previous`/`next` links. The
track node is itself the end sentinel of that chain. The block it links as
its previous block is its *attached block*, the last block of content.

- Block ids stand in for pointers. Id 0 (`Block.TrackId`) is the track.
- A block's in-point is the sum of the lengths of the blocks before it, found
  by following `previous` links. Its out-point is its in-point plus its
  length. The track's own in-point is therefore the total length of the
  content, and its own length is 0.
- `Block::ConnectBlocks(a, b)` sets `next[a] := b` and `prev[b] := a`.
  `Block::DisconnectBlocks(a, b)` drops `next[a]` if it is `b` and `prev[b]`
  if it is `a`. `app/node/block/block.cpp` is not part of this model, so this
  is an assumption.
- A ghost rank (`order`) gives each block a position in timeline order.
  Every link goes forward along it, so the links never form a cycle, and the
  walk back from the track always ends.

Files:

- `block.dfy` (module `Block`): links, walks, in/out points and the link
  edits, as values.
- `track_events.dfy` (module `TrackEvents`): the notifications a Refresh
  sends.
- `track.dfy` (module `Track`): the class `TrackOutput`. Its fields are the
  link maps, the lengths, the cache `blockCache`, `currentBlock`, the gap and
  graph registries and an id allocator. Each method states the exact new
  state.
- `edits.dfy` (module `TrackEdits`): for each edit, what the chain becomes,
  where the touched blocks start, and what happens to the total length.

The cache is its own field, and only `Refresh` writes it. The edit
operations read the cache, not the links. So after one relink and before the
next Refresh they can act on a stale snapshot. Where that happens, the model
states what the code does (see Findings). Where the code differs from what
its own comments and structure say it is for, the code is followed:

- RemoveBlock makes a gap of the removed block's length (track.cpp:283-284),
  so that the blocks after it keep their places. For a block with no previous
  block, the comment at line 293 says the block is at the beginning, and the
  gap is prepended. As written, that prepend reads the stale cache, and the
  gap ends up linked only to the removed block. The track stays contiguous,
  but every later block starts earlier by the removed block's length, and the
  total length drops by it, as after RippleRemoveBlock.
- PlaceBlock's branch for start 0 is commented "Place block at the beginning"
  (line 242). A new block already has in() == 0, so the test at line 238
  returns first. The block is registered in the graph, but no link changes.

## Model

| member | source | states |
|---|---|---|
| Track.TrackOutput.constructor | app/node/output/track/track.cpp:28-38 | A new track has no links, an empty cache and itself as current block; its own length is 0 |
| Track.TrackOutput.SetLength | app/node/output/track/track.cpp:71-74 | Setting the track's own length changes nothing; any other block takes the new length and nothing else changes |
| Block.InIsSum | app/node/output/track/track.cpp:127-128 | A block's in-point is the total length of the blocks on the walk back from it |
| Track.TrackOutput.TrackInIsTotalLength | app/node/output/track/track.cpp:127-128 | The track's in-point is the total length of its chain |
| Track.TrackOutput.ChainContiguous | app/node/output/track/track.cpp:139-146 | The chain is contiguous: the first block starts at 0, each later block starts where the one before ends, and the track starts where the last block ends |
| Block.CoveringBlockUnique | app/node/output/track/track.cpp:144-149 | On a walk with non-negative lengths, at most one block covers a given time |
| Track.TrackOutput.CoveringBlockIsUnique | app/node/output/track/track.cpp:144-149 | With non-negative lengths, at most one chain block covers a given time, so the block Process stops at is the only one |
| Block.WalkUnique | app/node/output/track/track.cpp:80-89 | A complete backward walk along `previous` links that ends at a block is the walk from that block: there is only one |
| Track.TrackOutput.ChainLinksBack | app/node/output/track/track.cpp:80-89 | The chain is a sequence that the links lead back through, from attached_block() to a block with no previous block |
| Track.TrackOutput.LinksBackChain | app/node/output/track/track.cpp:80-89 | Any sequence the links lead back through from attached_block() is the chain |
| Track.TrackOutput.Refresh | app/node/output/track/track.cpp:76-100 | The new cache is the walk back from attached_block(), earliest first; the notifications sent are exactly the added blocks, latest first, then the removed blocks in old cache order |
| TrackEvents.AddedEventsMembers | app/node/output/track/track.cpp:80-89 | BlockAdded is sent for a block if and only if it is in the new chain and not in the old cache |
| TrackEvents.RemovedEventsMembers | app/node/output/track/track.cpp:91-95 | BlockRemoved is sent for a block if and only if it is in the old cache and not in the new chain |
| TrackEvents.RefreshEventsExact | app/node/output/track/track.cpp:76-100 | A rebuild from a cache without repeats to a chain without repeats notifies each block at most once, added exactly for new blocks, removed exactly for departed ones |
| Track.TrackOutput.GenerateBlockWidgets | app/node/output/track/track.cpp:102-107 | One BlockAdded per cached block, in cache order |
| Track.TrackOutput.Process | app/node/output/track/track.cpp:119-150 | At or past the track's in-point the track itself becomes current and there is no output; before it, the walk back along the previous links stops at a chain block with in <= time < out, whose output is used; when no chain block has a negative length, that block is the only one covering time. Because in() sums the lengths along the previous links, the backward walk already stops at a covering block, so the forward walk at lines 143-146 never takes a step and the `next` links are never read |
| Track.TrackOutput.AttachedBlock | app/node/output/track/track.cpp:166-169 | The track's previous link is the last block of the chain, and there is none exactly when the chain is empty |
| Track.TrackOutput.InsertBlockBetweenBlocks | app/node/output/track/track.cpp:152-159 | The block is registered; the old `before`-`after` links are replaced by `before` -> block -> `after`, and no other link changes |
| TrackEdits.InsertBetweenOutcome | app/node/output/track/track.cpp:152-159 | When `after` is on the track right after `before`, the block joins the chain in front of `after`, starts where `after` started, and adds its length to the total |
| Track.TrackOutput.InsertBlockAfter | app/node/output/track/track.cpp:161-164 | The block is registered and linked between `before` and before's next block, and no other link changes |
| TrackEdits.InsertNextOutcome | app/node/output/track/track.cpp:161-164 | On a doubly linked chain, the block lands in the chain right after `before`, at the next position, and the `next` links stay in step |
| TrackEdits.InsertAfterOutcome | app/node/output/track/track.cpp:161-164 | On a doubly linked chain, the block joins right after `before`, starts at before's out-point, and adds its length to the total |
| Track.TrackOutput.PrependBlock | app/node/output/track/track.cpp:171-180 | With an empty cache the block is connected to the track; otherwise it is linked in front of the cache's first entry, whether or not that entry is still on the chain |
| TrackEdits.PrependOutcome | app/node/output/track/track.cpp:171-180 | With a current cache the block becomes the first block, starts at 0, and adds its length to the total |
| Track.TrackOutput.InsertBlockAtIndex | app/node/output/track/track.cpp:182-207 | Empty cache: connected to the track; index 0: prepended; index at or past the cache size: appended; index inside the cache: linked between cache entries index - 1 and index; a negative index with a non-empty cache: `ok` is false and no link changes. The block is registered in every case |
| TrackEdits.InsertAtIndexOutcome | app/node/output/track/track.cpp:182-207 | With a current cache the block lands at chain position min(index, size), starts where the entry it displaces started, and adds its length to the total |
| TrackEdits.InsertInnerOutcome | app/node/output/track/track.cpp:201-205 | Inside the chain, the block lands at position `index` and starts where cache entry `index` started |
| Track.TrackOutput.AppendBlock | app/node/output/track/track.cpp:209-218 | With an empty cache the block is connected to the track; otherwise it is linked between the cache's last entry and the track, whether or not that entry is still on the chain |
| TrackEdits.AppendOutcome | app/node/output/track/track.cpp:209-218 | With a current cache the block becomes the last block, starts at the track's old in-point, and adds its length to the total |
| Track.TrackOutput.ConnectBlockInternal | app/node/output/track/track.cpp:220-225 | The block is registered and becomes the track's previous block |
| Track.TrackOutput.AddBlockToGraph | app/node/output/track/track.cpp:227-232 | The block joins the graph registry and nothing else changes |
| Track.TrackOutput.DetachedStartsAtZero | app/node/output/track/track.cpp:238-247 | A block linked to nothing starts at 0 and is not on the chain, so PlaceBlock(b, 0) returns before its start == 0 branch |
| Track.TrackOutput.FirstStartingAt | app/node/output/track/track.cpp:268-278 | The first cache position at or after `from` whose block starts at `start`, and None exactly when no such position exists |
| Track.TrackOutput.InsertAtCachedStart | app/node/output/track/track.cpp:268-278 | The scan puts the block in front of the first cache entry at index >= 1 that starts at `start`, and changes no link when there is none |
| Track.TrackOutput.AppendGap | app/node/output/track/track.cpp:251-258 | A new gap of the missing length is appended against the cache; other detached blocks stay detached |
| Track.TrackOutput.AppendGapThenBlock | app/node/output/track/track.cpp:251-261 | As written, past the end: a new gap of the missing length is appended against the cache, then the block is appended against the same cache; only the gap and the block are reranked |
| Track.TrackOutput.AppendBehindGap | app/node/output/track/track.cpp:251-261 | Corrected past-the-end step: a new gap of the missing length is appended against the cache, and the block is linked between the gap and the track |
| Track.TrackOutput.PlaceBlock | app/node/output/track/track.cpp:234-279 | start == 0: the block is registered and no link changes; start == in(): appended; start > in(): a gap of length start - in() appended, then the block appended against the same cache; start < in(): the scan's insertion or nothing. The timeline order changes only at the block and, past in(), at the new gap, so PlacePastEndOutcome applies to the post-state |
| TrackEdits.PlacePastEndOutcome | app/node/output/track/track.cpp:250-263 | As written, past the end: the chain grows by the block alone, the gap is not on it, the `next` links still follow the chain, and the block starts at the old in(), not at `start` |
| TrackEdits.PlacePastEndChain | app/node/output/track/track.cpp:250-263 | As written, past the end: the chain after both appends is the old chain plus the block |
| TrackEdits.PlacePastEndForward | app/node/output/track/track.cpp:250-263 | As written, past the end: the `next` links still follow the chain |
| Track.TrackOutput.PlaceBlockCorrected | app/node/output/track/track.cpp:234-279 | As PlaceBlock, except that start == 0 prepends and past the end the block is linked between the new gap and the track |
| TrackEdits.PlacePastEndCorrectedOutcome | app/node/output/track/track.cpp:250-263 | Corrected, past the end: the chain grows by the gap and then the block, the `next` links follow it, the gap starts at the old in(), and the block starts after the gap, at `start` |
| TrackEdits.PlacePastEndCorrectedChain | app/node/output/track/track.cpp:250-263 | Corrected, past the end: the chain is the old chain, the gap and the block, and the block starts after the gap |
| TrackEdits.PlacePastEndCorrectedForward | app/node/output/track/track.cpp:250-263 | Corrected, past the end: the `next` links follow the old chain, the gap, the block and the track |
| Track.TrackOutput.RippleRemoveBlock | app/node/output/track/track.cpp:300-316 | The links become those of RippledPrev/RippledNext: the block's links are dropped, and when it had both neighbours they are joined |
| Block.RippleLinks | app/node/output/track/track.cpp:300-316 | After the ripple the block has no neighbours, its former previous and next are linked to each other when both existed, and every other link is unchanged |
| Block.ChainAfterRipple | app/node/output/track/track.cpp:300-316 | On a doubly linked chain the ripple removes exactly that block from the chain and keeps the `next` links in step |
| TrackEdits.RippleOutcome | app/node/output/track/track.cpp:300-316 | On a doubly linked chain the ripple removes the block from the chain and shortens the total by its length |
| Track.TrackOutput.RippleOutForGap | app/node/output/track/track.cpp:283-290 | A new gap of the block's length is made, linked to nothing, and the block is rippled out |
| Track.TrackOutput.RemoveBlock | app/node/output/track/track.cpp:281-298 | With a previous block, the gap is linked between previous and next; without one, it is prepended against the cache as it stands |
| TrackEdits.RemoveInnerOutcome | app/node/output/track/track.cpp:295-297 | With a previous block, the gap takes the block's place in the chain, starts where it started, the `next` links stay in step, and the total is unchanged |
| TrackEdits.RippleInnerStep | app/node/output/track/track.cpp:300-316 | Rippling out a block that has a previous block links its neighbours to each other, and its next block takes its place in the walk |
| TrackEdits.RemoveFirstOutcome | app/node/output/track/track.cpp:292-294 | As written, for the first block: the chain loses the block, the gap is not on it, the block keeps a link back to the gap, the `next` links still follow the chain, and the total drops by the block's length |
| TrackEdits.RemoveFirstChain | app/node/output/track/track.cpp:292-294 | As written, for the first block: the chain after the prepend is the old chain without its first block |
| Track.TrackOutput.RemoveBlockCorrected | app/node/output/track/track.cpp:281-298 | As RemoveBlock, except that without a previous block the gap is linked in front of the block's former next block |
| TrackEdits.RemoveCorrectedOutcome | app/node/output/track/track.cpp:292-294 | Corrected, for the first block: the gap takes the block's place, starts at 0, and the total is unchanged |
| TrackEdits.RemoveCorrectedChain | app/node/output/track/track.cpp:292-294 | Corrected, for the first block: the chain is the gap followed by the rest of the old chain |
| Track.TrackOutput.Copy | app/node/output/track/track.cpp:328-329 | copy() gives a new block of the same kind and length, linked to nothing |
| Track.TrackOutput.CopyAfter | app/node/output/track/track.cpp:328-330 | A copy of the block, of the given length and the same kind, is made and linked between `before` and before's next block |
| Track.TrackOutput.NewGap | app/node/output/track/track.cpp:283-284 | `new GapBlock()` gives a new gap of length 0, linked to nothing |
| Track.TrackOutput.SplitBlock | app/node/output/track/track.cpp:318-331 | Outside [in, out) nothing changes (time == in is accepted); otherwise the block's length becomes time - in, a copy of length out - time is linked right after it, and only the copy is ranked |
| TrackEdits.SplitOutcome | app/node/output/track/track.cpp:318-331 | The copy joins the chain right after the block; the block keeps its in-point, the copy starts at `time` and ends at the block's old out-point, and the total is unchanged |
| Track.TrackOutput.SpliceBlock | app/node/output/track/track.cpp:333-349 | Requires in <= inner_in < out of `outer`; `outer` is cut to end at inner_in, then come `inner` and a copy of `outer` whose length is the original less both, before outer's old next block; only `inner` and the copy are reranked |
| TrackEdits.SpliceChain | app/node/output/track/track.cpp:343-349 | The chain becomes outer, inner, copy where outer was, in that order, with the `next` links in step |
| TrackEdits.SpliceTimes | app/node/output/track/track.cpp:337-349 | `outer` keeps its in-point, `inner` starts at inner_in, the copy ends at outer's old out-point, and the total is unchanged |
| Track.RippleKeepsInv | app/node/output/track/track.cpp:300-316 | RippleRemoveBlock keeps the track's invariant: ranked links, known lengths, and cached blocks ranked below the track and listed once |

## Left out

- Qt signals: BlockAdded and BlockRemoved are not emitted. Refresh and GenerateBlockWidgets return the sequence of notifications instead.
- Graph registration: `NodeGraph::AddNodeWithDependencies` is a call into the graph engine. AddBlockToGraph only adds the id to the `graph` set.
- Textures: Process returns the block whose texture output would be used, or None where the source outputs 0. Render values are not modelled.
- Not modelled: the base-class calls `Block::Process` and `Block::Refresh`, `next_track`, `track_output`, the constructor's input/output wiring, and the metadata getters `type`, `copy`, `Name`, `id`, `Category` and `Description`. They have no effect on the chain.
- `rational` times and lengths are modelled as unbounded integers.
- Memory ownership: `new GapBlock()` and `copy()` draw a fresh id from a counter. Blocks are never freed. Clip blocks are made by the track's callers, outside `track.cpp`; NewBlock stands for that, giving a fresh non-gap block of a chosen length linked to nothing.
- attached_block() reads the track's previous link. The `ValueToPtr` lookup behind it is not modelled.
- Track.TrackOutput.InsertBlockBetweenBlocks: the block must be detached: known, not the track, and linked to nothing. It may still be listed in a stale cache. `before` must also rank below `after` in timeline order. The source links whatever it is given, and relinking a block that is still on the chain, or linking against the timeline order, can close a cycle on which Refresh and Process never end. The same detachment is required by InsertBlockAfter, PrependBlock, AppendBlock, InsertBlockAtIndex, ConnectBlockInternal, PlaceBlock and SpliceBlock's inner block.
- Track.TrackOutput.InsertBlockAfter: requires that `before` has a next block. For a `before` without one, the source passes a null `after` into `Block::ConnectBlocks`, and `app/node/block/block.cpp` is not part of this model.
- Track.TrackOutput.PrependBlock: the block must not be the cache's first entry. With a stale cache it can be, and then the source links the block to itself, a cycle.
- Track.TrackOutput.AppendBlock: the block must not be the cache's last entry, for the same reason.
- Track.TrackOutput.InsertBlockAtIndex: the cache entries the block is linked to must not be the block, and inside the cache, entries index - 1 and index must be in timeline order. A stale cache can break that order. For example, with chain [a, b, c] cached, ripple a out and append it, so the chain is [b, c, a]. InsertBlockAtIndex(x, 1) then links a, x, b into the cycle b, c, a, x.
- Track.TrackOutput.InsertBlockAtIndex: a negative index with a non-empty cache makes `block_cache_.at(index - 1)` read out of range at line 204, which is fatal in Qt. The model returns `ok == false` with no link changed instead.
- Track.TrackOutput.PlaceBlock: the cache entries the block is linked to must not be the block, and the entries the scan links it between must be in timeline order, for the same reasons as above. The source's FIXME (line 244) leaves re-placing an already linked block unhandled.
- Track.TrackOutput.PlaceBlockCorrected: the same requirements as PlaceBlock, and at start 0 the block must not be the cache's first entry.
- Track.TrackOutput.SpliceBlock: requires that `outer` has a next block, for the same reason as InsertBlockAfter. The range of inner_in is a requirement, as the source's Q_ASSERT makes it.
- Track.TrackOutput.Process: requires time >= 0 whenever time is below the track's in-point. For a negative time the source would walk past the first block through a null previous link.
- Track.TrackOutput.Process: the forward loop at lines 143-146 is not written as a loop. Since in() sums the lengths along the previous links, its guard is already false when the backward walk ends, and the model states that as an assertion. A `next()` that disagrees with the previous links is therefore never followed.
- Track.TrackOutput.Process: with a negative block length on the chain, several chain blocks can cover `time`; the contract then says only that the block the walk stops at covers it, not which of them it is.
- Track.TrackOutput.RemoveBlock: requires that a block with a previous block also has a next block. Otherwise the source would insert the gap before a null block.
- Track.TrackOutput.SplitBlock: requires that a block split inside [in, out) has a next block, which InsertBlockAfter links the copy in front of.

## Findings

| source | as written | input that shows it | evidently intended | confidence | as-written member | corrected member |
|---|---|---|---|---|---|---|
| app/node/output/track/track.cpp:292-294 | After RippleRemoveBlock, RemoveBlock on the first block prepends the gap against `block_cache_.first()`, which is still the removed block. The gap is linked only to the removed block, and the track loses the block's length | Chain [a, b] with a current cache; RemoveBlock(a) | The gap takes a's place in front of b, and the track keeps its length | not executed | TrackEdits.RemoveFirstOutcome | TrackEdits.RemoveCorrectedOutcome |
| app/node/output/track/track.cpp:238-247 | A block not yet on the track has in() == 0, so PlaceBlock(block, 0) returns at the first test and its prepend branch never runs; the block is registered but not linked. This rests on `Block::in()` summing the lengths along the previous links, as the model defines it; `app/node/block/block.cpp` is not part of this model | A new block b; PlaceBlock(b, 0) | b is prepended and becomes the first block | not executed | Track.TrackOutput.PlaceBlock | Track.TrackOutput.PlaceBlockCorrected |
| app/node/output/track/track.cpp:251-261 | Past the end, AppendBlock(gap) and AppendBlock(block) read the same cache, so the block's append overwrites the track's link to the gap. The gap drops off the track, and the block starts at the old in() instead of at `start` | Chain [a] with length(a) = 10 and a current cache; PlaceBlock(b, 15) | The chain becomes a, a gap of length 5, then b, with b starting at 15 | not executed | TrackEdits.PlacePastEndOutcome | TrackEdits.PlacePastEndCorrectedOutcome |

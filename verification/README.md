# Libswift, the swift/PPSPP reference implementation: a verified model

Libswift moves content between peers in chunks. Chunks are numbered, sets of chunks
are named by *bins* (nodes of the binary tree over the chunk numbers), and almost every
decision the protocol makes is a question about sets of chunks: which ones a peer has,
which are still wanted, which may be announced, which hashes are proven. This project
models the parts of the code that answer those questions and the structures they keep
in place, and proves what they promise.

* **Bins** (`Powers`, `Bits`, `Bins`, `BinWords`). A bin is a layer and a first chunk.
  `BinWords` proves that the 64-bit arithmetic of bin.h and bin.cpp computes the interval
  operations that all other modules use.
* **Bin maps** (`Words`, `Trees`, `Cells`, `BinMaps`, `Identity`, `Queries`, `Leftmost`,
  `Holes`, `Copy`). A set of chunks is a tree of cells in one growable array with a free
  list through the unused cells. A half that is not a reference is a 32-bit bitmap that
  stands for itself repeated over the whole half. Class `BinMap` has the array, the top of
  the free list and the counters as fields; ghost fields hold the tree and the free list.
  `Valid()` says that the tree is canonical and that the array is exactly the cells of the
  tree and those of the free list. `Has(i)` says that chunk i is in the set.
* **Searching two maps together** (`Twist`, `Order`, `Flow`, `Leaf`, `Find`, `Complement`).
  `find_complement` and `find_match` with their four inner searches. A twist mask gives the
  order: chunk i comes before chunk j if i exclusive-or twist is the smaller number, and the
  answer is the biggest bin of wanted chunks around the one that comes first.
* **Users of bin maps**: rarity levels (`Avail`, `Swarm`), HAVE announcements (`Have`),
  the live source (`Live`, and `LiveSource` for the source together with its hash tree),
  request queues (`Queues`), chunk ranges (`Ranges`).
* **Hash trees** (`Peaks`, `Merkle`, `Offer`, `LiveTrees`). The node hash is an abstract
  function with a zero value. Theorems about accepting hashes assume it injective.
* **Further cores**: the swarm index (`Manager`), storage (`Storages`), the in-place block
  exchange of getopt_long.c (`Getopt`), streaming SHA-1 (`Sha1`).

Parts of the code that work by assignment are methods over class fields, arrays and loops;
each is proved against a statement about sets, sequences or trees that does not mention how
it works. Places where the code does not do what its callers would expect are stated as
results:

* A search for a wanted chunk narrows a 64-bit offset to 32 bits at binmap.cpp:1708. `NONE`
  is the right answer at all sizes. With a twist below 2^31 (piece pickers are given six bits)
  any other answer is the biggest bin of wanted chunks around the first of them if and only if that
  first chunk is below 2^31 or its block of 32 chunks is wanted as a whole (`Complement.AnswerExact`).
  So every answer is wrong if all wanted chunks are from 2^31 on and no block is wanted as a
  whole (`Complement.AnswerBeyond`), as for two maps in `Complement.FindBeyond`.
* `RemoveSwarm` with an unknown hash takes another swarm out of the id list exactly if the
  bucket has a greater hash (swarmmanager.cpp:452-492): `Manager.SwarmManager.RemoveSwarm` has
  the condition, `Manager.RemoveUnknown` an input. The only caller, at api.cpp:189-191, passes
  the hash of a swarm that it has just found; `Manager.SwarmManager.Close` shows that this keeps
  the invariant.
* A freed id is used again after 120 microseconds, not seconds: `SECONDS_UNTIL_INDEX_REUSE` is
  subtracted from a time in microseconds (swarmmanager.cpp:18, 369): `Manager.SwarmManager.Delays`.
* In live-wrap mode `Write` returns the size of the last piece only (storage.cpp:137-144), which
  is the size of the data exactly if nothing wraps: `Storages.Wrapped.Write`; six bytes through a
  window of four return two: `Storages.ShortCount`.
* A leaf offered before the hash beside it is known is not climbed from: it is accepted exactly if
  it equals what is stored for its parent, and in general exactly if what the climb carries to the
  first zero equals what is stored for the next node (hashtree.cpp:569-576). `Offer.Verifier.OfferHash`
  and `OfferData` state this answer, `Offer.Verifier.CutFirst` the case of a missing sibling; that
  such a hash is true is not claimed.
* `DequeueHint` reports a retransmission, but sends a requested chunk or nothing, exactly if the
  first entry of the timed-out queue that was not acknowledged meanwhile is a cleared one
  (sendrecv.cpp:281-331): `Queues.Channel.DequeueHint`, with such a queue in `Queues.ReportedOnly`.

## Model

| member | source | states |
|---|---|---|
| Bins.ContainsMeaning | bin.h:773-780 | The comparison of bin numbers is inclusion of intervals, both ways. |
| Bins.NestedOrDisjoint | bin.h:773-780 | Two bins never overlap partly: the bigger one contains the other or they share no chunk. |
| Bins.Direction | binmap.cpp:1859-1890 | One comparison of numbers tells in which half of a bin a smaller bin lies; this is the step of every walk down a map. |
| Bins.ParentOk | bin.h:519-527 | A bin is one half of its parent and its sibling the other; `is_left` tells which. |
| Bins.HalvesOk | bin.h:533-583 | The two children are bins again and split the interval in the middle. |
| Bins.DecodeNumber | bin.h:339-352 | Every number is the number of an aligned bin. |
| Bins.DecodeBin | bin.h:339-352 | Distinct aligned bins have distinct numbers: decoding inverts numbering. |
| BinWords.IntervalOf | bin.h:430-459 | From the number alone, the bit tricks give the length, the first chunk and the base bins at both ends. |
| BinWords.ContainsOf | bin.h:773-780 | The mask comparison on 64-bit numbers is the interval inclusion used in all other modules. |
| BinWords.ParentNumber | bin.h:519-527 | The bit trick for the parent gives the parent's number, and NONE for ALL. |
| BinWords.SiblingNumber | bin.h:589-594 | The exclusive-or for the sibling and the test for a left child are right for every bin below ALL. |
| BinWords.SiblingOfAll | bin.h:589-594 | In 64 bits ALL is its own sibling, since the carry is lost. |
| BinWords.ChildNumbers | bin.h:533-583 | The exclusive-ors for the children are right; a base bin is its own left and right child. |
| BinWords.TwistedNumber | bin.h:626-631 | Twisting a number twists the bin, whose top mask bit is lost. |
| BinWords.LayerNumber | bin.cpp:25-55 | The multiplication by a De Bruijn constant with the 32-entry table finds the layer of every bin, and -1 for NONE. |
| Words.MaskRun | binmap.cpp:28-98 | Each of the 63 table entries is the run of ones at the place of its bin. |
| Words.MaskBits | binmap.cpp:28-98 | The mask of a bin of up to 32 chunks selects exactly its chunks modulo 32. |
| Trees.NotPeriodic | binmap.cpp:383-427 | A canonical subtree that is referenced never stands for one bitmap repeated: for every bitmap some chunk differs. |
| Trees.CanonicalUnique | binmap.cpp:383-427 | Over one bin, one set has one canonical tree. |
| BinMaps.BinMap.StoreCount | binmap.cpp:226-241 | The counter of allocated cells is the number of cells in use. |
| BinMaps.BinMap.constructor | binmap.cpp:196-209 | A new map is valid, empty, and covers 64 chunks. |
| BinMaps.BinMap.Reserve | binmap.cpp:265-318 | Growth keeps all cells, goes to the biggest of 16, twice the cells and the need, and leaves an acyclic free list with the room asked for, the new cells first; with room enough nothing changes. |
| BinMaps.BinMap.AllocDirty | binmap.cpp:226-241 | Hands out a cell that was not in use; free list and used cells still partition the array. |
| BinMaps.BinMap.Alloc | binmap.cpp:247-259 | The same with growth when needed; the cell is zeroed and no used cell changes. |
| BinMaps.BinMap.FreeCell | binmap.cpp:324-341 | Freeing a reference gives back exactly the cells of its subtree and changes no other cell. |
| BinMaps.BinMap.ExtendRoot | binmap.cpp:347-377 | One more layer at the top, the same set, still canonical. |
| BinMaps.BinMap.Trace | binmap.cpp:1896-1936 | The walk ends in the cell over the target or in the cell whose half around it is a bitmap; the history is its path and fits the callers' 64 entries. |
| BinMaps.BinMap.PackCells | binmap.cpp:383-427 | From a tree that is canonical except along the history, folding makes it canonical without changing the set. |
| BinMaps.BinMap.FinishPack | binmap.cpp:407-426 | Replacing the topmost foldable subtree by its bitmap frees its cells and changes no chunk. |
| BinMaps.BinMap.Unpack | binmap.cpp:2081-2103 | A periodic half becomes a chain of cells down to the target bin with the same set. |
| BinMaps.BinMap.SetLow | binmap.cpp:2014-2114 | In a bin of up to 32 chunks the set becomes that of the bitmap, outside it stays; the map stays canonical, and the root grows as far as the bin needs and no further, if there is a bit to set. |
| BinMaps.BinMap.SetHigh | binmap.cpp:2117-2241 | The same for bigger bins, where the bitmap repeats; a bin around the root becomes the root. |
| BinMaps.BinMap.Set | binmap.cpp:1721-1732 | For every valid map and bin the set becomes the union with the bin, whatever extension, unpacking and packing it takes; the root is the bin, the old root, or the smallest one around both. |
| BinMaps.BinMap.Reset | binmap.cpp:1740-1751 | The set becomes the difference with the bin, without extending the root. |
| BinMaps.BinMap.Clear | binmap.cpp:1757-1772 | The empty set, over the same root, with the cells given back. |
| BinMaps.BinMap.Fill | binmap.cpp:1778-1795 | Exactly the chunks of the other map's root. |
| Identity.SameSetSameTree | binmap.cpp:383-427 | Two maps that any operations led to, with one root and one set, have the same tree and use equally many cells. |
| Identity.CellBooks | binmap.cpp:226-341 | The counter is the size of the tree, and each cell is in the tree or in the free list, never both. |
| Identity.CellMixed | binmap.cpp:2078-2113 | Below the root no cell is empty, full, or any bitmap repeated. |
| Queries.IsEmpty | binmap.cpp:433-439 | The look at two halves of one cell decides whether the whole set is empty. |
| Queries.IsFilled | binmap.cpp:445-451 | True exactly if the root is ALL and every chunk is in the set. |
| Queries.IsEmptyBin | binmap.cpp:457-493 | True exactly if no chunk of the bin is in the set, for every bin, also around or outside the root; NONE counts as empty. |
| Queries.IsFilledBin | binmap.cpp:499-535 | True exactly if every chunk of the bin is in the set; NONE does not count as filled. |
| Queries.Cover | binmap.cpp:541-643 | Inside the root, NONE exactly for mixed bins, else the topmost wholly filled or wholly empty bin around the argument, or, exactly for some bins in a root that is itself filled or empty, a half of that root; around and beside the root, and for NONE, the exact answer of the code. |
| Queries.FindEmpty | binmap.cpp:649-713 | The biggest wholly absent bin that starts at the least absent chunk; NONE exactly for the full map over ALL. |
| Queries.FindFilled | binmap.cpp:719-780 | The biggest wholly present bin that starts at the least chunk of the set; NONE exactly for the empty set. |
| Leftmost.WordStarts | binmap.cpp:99-170 | The table lookup yields the biggest bin of set bits that starts at the lowest set bit of any nonzero bitmap: of its parent some bit is not set. |
| Holes.FilledUpTo | binmap.cpp:793-847 | The working copy is the map with everything before the start added. |
| Holes.ClimbToHole | binmap.cpp:793-847 | Climbing stops at the first ancestor with a hole, or past the root when there is none. |
| Holes.Descend | binmap.cpp:793-847 | Going down left first finds the least hole of a bin that has one. |
| Holes.FindEmptyFrom | binmap.cpp:793-847 | The least absent chunk at or after the start, or NONE if the rest of the root is filled. |
| Copy.CountCells | binmap.cpp:2313-2345 | The count with an explicit stack is the size of the tree, which is the allocation counter. |
| Copy.MakeRoom | binmap.cpp:2313-2365 | Afterwards the destination owns its root cell only and has room for every cell of the source. |
| Copy.CloneCells | binmap.cpp:2366-2412 | The two-stack loop places every cell of the source once, under an injective renaming, and the destination holds the renamed tree. |
| Copy.CopyMap | binmap.cpp:1942-1946 | The destination becomes a valid map with the source's root, shape and set; the source does not change. |
| Twist.TwistedHas | bin.h:626-631 | The chunks of a twisted bin are the exclusive-ors of the bin's chunks with the mask. |
| Twist.TwistWordBits | binmap.cpp:1689-1703 | The five conditional swaps move bit i to i xor twist, for every bitmap and twist below 32. |
| Order.TwistHalves | binmap.cpp:877-900 | The digit of the twist at a bin says which half holds all the earlier chunks; this is the choice that each push on the stack makes. |
| Order.RankIn | binmap.cpp:1667 | Inside a bin only the low digits of the twist matter for the order. |
| Order.FirstExists | binmap.cpp:1504-1712 | Every bin with a wanted chunk has one that comes first. |
| Flow.FlowDownSpec | binmap.cpp:1487-1495 | The six shift-and-or lines set all bits below the highest one, for masks of up to 64 bits. |
| Flow.FlowBin | binmap.cpp:1485-1496 | The number built from it is the bin from 2^k to 2^(k+1), k the highest bit. |
| Leaf.LeafSpec | binmap.cpp:1654-1712 | In any twist the answer is a bin within one block of 32 chunks whose bits are all set, and of whose parent some bit is not. |
| Leaf.LeafFirst | binmap.cpp:1654-1712 | In a half that starts below 2^31, searched with a twist below 2^31 or ending below it, the answer holds the chunk with a set bit that comes first in the order of the twist. |
| Leaf.LeafFirstLow | binmap.cpp:1654-1712 | The same for a range of less than 32 chunks. |
| Leaf.LeafExact | binmap.cpp:1654-1712 | The answer lies in the half and its bits are set if and only if the half is full or starts below 2^31. |
| Leaf.LeafOverflows | binmap.cpp:1708-1709 | A half at 2^31 is answered with a bin at 0. |
| Find.LinePop | binmap.cpp:1504-1576 | Taking a half off the stack keeps the stack in the order of the twist, and the half comes before all that is left. |
| Find.FindBitsRef | binmap.cpp:1578-1615 | Bitmap against cells, not wanted as a whole: NONE exactly if nothing is wanted in the bin; else the biggest bin of wanted chunks around the one that comes first in the order of the twist, if that one is below 2^31 or its block of 32 is wanted as a whole, and a bin below 2^31 if not (for twists below 2^31, and for all twists if the wanted chunks are below 2^31). |
| Find.FindRefBits | binmap.cpp:1618-1651 | The same for cells against a bitmap. |
| Find.FindHalf | binmap.cpp:1504-1576 | The same for one half of two cells, at least one of them a bitmap. |
| Find.FindRefs | binmap.cpp:1504-1576 | The same for cells against cells: the walk with a stack skips no wanted chunk and takes none out of turn. |
| Find.Narrow | binmap.cpp:1305-1345 | Cutting the range to the source's root and tracing it loses no chunk of the source; giving up means that there is none, or that the range is NONE. |
| Complement.FindAround | binmap.cpp:1478-1498 | Where the source reaches past the root of a destination that has chunks, there is always an answer, and the sibling, copy and highest-bit shortcuts give the one of the plain search: sound, complete, as big as can be, and first in the order of the twist. |
| Complement.FindOuter | binmap.cpp:1410-1476 | The walk down the source toward a smaller destination root gives that answer too. |
| Complement.AgainstInside | binmap.cpp:1345-1409 | So does the search of a range inside the destination's root. |
| Complement.FindComplement | binmap.cpp:1305-1500 | For any two valid maps, any range and twist: NONE exactly if source, range and not destination have no chunk in common, or the range is NONE. Else, for twists below 2^31 or wanted chunks below 2^31: if the first wanted chunk in the order of the twist is below 2^31 or in a block of 32 wanted as a whole, the biggest bin of wanted chunks around it inside the range; if not, a bin below 2^31. |
| Complement.FindMatch | binmap.cpp:1053-1301 | The dual for source, range and destination. |
| Complement.FindLow | binmap.cpp:1305-1500 | Without a twist, below 2^31: the biggest bin of missing chunks around the least of them, which it starts with. |
| Complement.AnswerLow | binmap.cpp:1305-1500 | If all wanted chunks are below 2^31, every answer in any twist is the biggest bin of wanted chunks around the first of them. |
| Complement.AnswerOne | binmap.cpp:1305-1500 | So below 2^31 the answer for two maps, a range and a twist is unique: chunk by chunk and in size it is that of the plain definition. |
| Complement.AnswerExact | binmap.cpp:1708-1709 | With a twist below 2^31, an answer is the biggest bin of wanted chunks around the first of them if and only if that chunk is below 2^31 or its block is wanted as a whole. |
| Complement.AnswerBeyond | binmap.cpp:1708-1709 | If all wanted chunks are from 2^31 on and no block is wanted as a whole, no chunk of the answer is wanted. |
| Complement.FindBeyond | binmap.cpp:1708-1709 | An empty map and one with chunk 2^31 only: the answer lacks it. |
| Peaks.PeaksCover | bin_utils.h:11-31 | The peaks of a length partition its chunks. |
| Peaks.PeaksUnique | bin_utils.h:11-31 | A length has only one list of peaks. |
| Peaks.LowestPeak | bin_utils.h:11-31 | The last peak has the highest layer that the length is aligned to. |
| Peaks.GenPeaks | bin_utils.h:11-31 | The bit loop and the reversal in place leave the peaks, highest first, and NONE after them. |
| Avail.Availability.OneLevel | avail.cpp:28-80 | The rarity maps are disjoint: each chunk is at exactly one level. |
| Avail.Availability.Level | avail.cpp:28-80 | The level of a chunk, never above the top, is the only one it is at. |
| Avail.Availability.constructor | avail.cpp:300-315 | At the start every chunk is at level 0. |
| Avail.Availability.SetBin | avail.cpp:28-80 | The recursion over index and bin raises each chunk of the bin by one, saturating at the top, and no other. |
| Avail.Availability.RemoveBin | avail.cpp:238-284 | It lowers each chunk of the bin by one, but a chunk at level 0 stays there. |
| Avail.Availability.Set | avail.cpp:137-168 | A peer's announcement raises exactly the chunks that it was not known to have. |
| Avail.Availability.RemoveBinmap | avail.cpp:187-236 | A leecher that leaves lowers exactly the chunks of its map. |
| Swarm.Transfer.constructor | sendrecv.cpp:1584-1592 | Without peers every count is right. |
| Swarm.Transfer.Join | sendrecv.cpp:1584-1592 | A new peer without chunks keeps the counts right. |
| Swarm.Transfer.OnHave | sendrecv.cpp:1584-1592 | Along every run, a chunk that was never at the top level is at the level of the number of peers known to have it; this needs the availability to be updated before the peer's map. |
| Swarm.Transfer.Leave | sendrecv.cpp:2355-2362 | The same when a peer leaves. |
| Have.NextHave | sendrecv.cpp:973-980 | One round announces the widest filled bin around the first chunk not announced yet, and the unannounced rest strictly shrinks; nothing is announced exactly when nothing is left. |
| Have.AddHave | sendrecv.cpp:973-980 | Up to four bins of the map, each as wide as it is filled, are announced, each shrinking the rest; fewer than four only when all has been announced. |
| Live.Source.UpdateSigned | live.cpp:383-414 | The signed map becomes exactly the chunks below the length that was signed, without those up to the checkpoint of an earlier source. |
| Live.Source.ClearOld | live.cpp:398-402 | Taking out the bins of the checkpoint's layer, one by one, takes out exactly the chunks up to its end. |
| Live.Source.Resume | live.cpp:117-124 | A source that goes on from a checkpoint has and announces nothing of the old chunks. |
| Live.Source.AddChunk | live.cpp:315-357 | After each chunk the own map is all chunks of this source so far, and the signed map those up to the last multiple of the signing interval. |
| Live.Source.Announce | sendrecv.cpp:963-980 | A source announces only its own chunks below the last signed multiple, and at the end all of them. |
| Live.PrunePosition | live.cpp:454-491 | The subtree to forget ends with the last whole run of signed chunks before the discard window: a left run itself, and of a right one the biggest right child of a left child; it is missing only when no whole run lies before the window. |
| LiveSource.LiveTransfer.AddChunk | live.cpp:313-360 | One step of a source from the start keeps tree, maps and window together: at each multiple of 2^layer chunks the hash to sign is the Merkle root of the last 2^layer chunks, whatever was pruned before, and unless everything is kept the run that has come to lie before the window is pruned, as soon as there is one. |
| LiveSource.LiveTransfer.Prune | live.cpp:454-491 | After a signature one more run is pruned, so that every chunk of the whole runs before the window is forgotten; what is pruned ends before the window, so the next signature is not affected. |
| LiveSource.LiveTransfer.WindowKept | live.cpp:454-491 | Along every run, each chunk of the discard window has its leaf in the tree, with its true hash. |
| LiveSource.LiveTransfer.OldForgotten | live.cpp:454-491 | Along every run of a source that does not keep everything, with s chunks signed, n a signature and w the window: no chunk before (s - w) / n * n has its leaf in the tree. |
| Ranges.ChunkToBins | channel.cpp:619-656 | The loop ends, and its bins lie side by side from the first to the last chunk, each as big as the range allows, though the climb looks only at the original start (RFC 7574, sections 4.1.1 and 4.2). |
| Ranges.DescribesFlat | channel.cpp:619-656 | Such bins hold each chunk of the range once, in order, and no other. |
| Ranges.InOne | channel.cpp:619-656 | Every bin inside the range lies in one of them, so no shorter list describes the range. |
| Ranges.Fragment | channel.cpp:664-685 | The base bins of the original outside the cancelled part, in order. |
| Queues.Channel.OnHint | sendrecv.cpp:1658-1675 | The request is appended as it is and the counter of requested chunks stays right. |
| Queues.Channel.DequeueTimedOut | sendrecv.cpp:281-296 | Acknowledged entries are dropped up to the first other one, which is taken, cleared or not. |
| Queues.Channel.DequeueIn | sendrecv.cpp:308-331 | Flattened to chunks the queue is first in, first out: exactly the leading expired or acknowledged chunks and the one served are gone. |
| Queues.Min | sendrecv.cpp:316 | A request is expired exactly if it is older than both limits: the deadline is the earlier of the two. |
| Queues.Channel.DequeueHint | sendrecv.cpp:269-335 | After a long silence nothing changes; else a timed-out chunk is sent again and the requests stay, or the first request worth serving is sent, which is not acknowledged and not expired. A retransmission is reported with nothing to send again exactly if the first entry not acknowledged is cleared. |
| Queues.ReportedOnly | sendrecv.cpp:281-331 | A queue with one cleared entry: a retransmission is reported and a chunk requested for the first time is sent. |
| Queues.Channel.DropLeading | sendrecv.cpp:1224-1252 | Dropped are exactly the leading chunks that are held, and then exactly those of requests older than the deadline. In front stays a whole request, or the first part not held of one: as big as can be if nothing of it is held, else its first chunk. |
| Queues.Channel.DequeueHintOut | sendrecv.cpp:1215-1273 | After those leaves the biggest first part of the bin in front that is no longer than the size asked for; the rest of it stays in order and the requests behind it untouched; nothing leaves exactly if nothing is left. |
| Queues.Channel.CleanHintOut | sendrecv.cpp:1174-1213 | Exactly the hints before the first one that contains the chunk are given up; of that one the bins beside the path down to those received are kept, lowest first, so that each other chunk is kept once; an unknown chunk changes nothing. |
| Queues.Channel.EraseRun | sendrecv.cpp:1901-1917 | Cancelling erases the first run of requests inside the bin. |
| Queues.Channel.FragmentAround | sendrecv.cpp:1921-1946 | The first request around the bin loses the bin's chunks and keeps the others in order. |
| Queues.Channel.OnCancel | sendrecv.cpp:1896-1946 | Both together, with the counter equal to the number of queued chunks. |
| Merkle.FileTree.Complete | hashtree.cpp:249-253 | Storing one chunk's hash and those of the bins it completes, like a binary counter, keeps every completed bin at its recursive Merkle hash. |
| Merkle.FileTree.Submit | hashtree.cpp:206-269 | Afterwards every bin within the chunks has its recursive hash, the peak hashes are right, and the tree is accepted exactly if no root was given or it is the root of the chunks. |
| Merkle.ClimbCovers | hashtree.cpp:486-514 | While the climb takes peaks in, it has the hash of the covering bin with zero for what lies past the end. |
| Merkle.RootCovers | hashtree.cpp:486-514 | The root of the peaks is the hash of the smallest tree over all chunks, with zero for empty subtrees (RFC 7574, section 5.6). |
| Merkle.FileTree.DeriveRoot | hashtree.cpp:486-514 | The loop over layers and peaks computes that root, for any adjacent peaks. |
| Merkle.FileTree.OfferPeakHash | hashtree.cpp:410-438 | A peak continues the list or starts it anew; it succeeds exactly if the peaks add up to the root. |
| Merkle.OfferPeaks | hashtree.cpp:410-438 | The peaks of a file offered in order to an empty tree with its root end in success with the same chunk count, if no shorter prefix already has that root. |
| Offer.RootFixesPeaks | hashtree.cpp:410-438 | With an injective node hash, peak hashes that add up to one root are the same hashes. |
| Offer.Verifier.StartSound | hashtree.cpp:475-482 | A tree with true peaks and nothing accepted satisfies what follows. |
| Offer.Verifier.PeakFor | hashtree.cpp:525-531 | The peak around a bin, or NONE exactly if there is none. |
| Offer.Verifier.ClimbOne | hashtree.cpp:556-574 | One step keeps the links between stored hashes and disturbs no proven hash and none beside the path; it writes the carried hash to its own slot only, carries the node hash of the two halves in order, and is cut short exactly if the hash carried or the one beside it is zero. |
| Offer.Verifier.Walk | hashtree.cpp:556-574 | The climb ends at a peak or a proven node with the hash of everything stored below, unless it meets a zero first: exactly then it is cut, and what it carries is the fold of the hashes beside the path so far. The slots of the path hold the folds and no other slot changes. From a true leaf beside true hashes the hash at the end is true. |
| Offer.Verifier.CheckLeaf | hashtree.cpp:554-594 | A climb that is not cut short succeeds if and only if the offered hash and all hashes beside the path are the true ones; one that is cut, if and only if the fold of the hashes beside the path up to the first zero is the hash stored before for the next node. |
| Offer.ClimbProves | hashtree.cpp:576-594 | For walks that end in a match at a peak or a proven node: the offered hash is true, and so is all that is marked. |
| Offer.Verifier.MarkPath | hashtree.cpp:578-594 | Exactly the leaf, its ancestors up to the peak and their siblings are marked. |
| Offer.Verifier.OfferHash | hashtree.cpp:533-597 | What becomes of an offer is fixed by the state before: refused, compared with a proven hash, compared early, kept, checked by a whole climb, or by one that the first zero on its way cuts. Proven nodes are accepted exactly at their true hash. A leaf checked by a whole climb is accepted exactly if it and all hashes beside its path are true (RFC 7574, section 5.2); one whose climb is cut, exactly if what is carried there equals what was stored for the next node. Only the path is rewritten. With nothing accepted under the parent and no zero hash in the way, an accepted hash is true and marked nodes stay true; and a true leaf beside true nonzero hashes is always accepted. |
| Offer.Verifier.CutFirst | hashtree.cpp:569-576 | If the offered hash or the one stored for the sibling is zero, the climb is cut at once, and the answer is the comparison with what is stored for the parent. |
| Offer.Verifier.RewrittenIs | hashtree.cpp:556-574 | After a climb each node of the path below its end holds the fold of the hashes beside the path up to there, and every other slot what it held. |
| Offer.Verifier.OverAccepted | hashtree.cpp:600-628 | After acceptance every inner node over the chunk is marked. |
| Offer.Verifier.OfferData | hashtree.cpp:600-636 | A chunk is acknowledged exactly if its hash is accepted, in the same cases with the same conditions, the cut climb included; a partial chunk only as the last one; a chunk already held is accepted again; a true chunk beside true hashes always. |
| LiveTrees.LiveHashTree.constructor | livehashtree.cpp:111-117 | The empty tree satisfies the invariant. |
| LiveTrees.LiveHashTree.InRoot | livehashtree.cpp:1047-1061 | With the links of `sane_node` every node lies under the root. |
| LiveTrees.LiveHashTree.TowardIn | livehashtree.cpp:965-978 | The half of a node toward a node below it has a node too. |
| LiveTrees.LiveHashTree.FindNode | livehashtree.cpp:965-978 | Finds the node over a bin exactly if the tree has one. |
| LiveTrees.LiveHashTree.CreateNext | livehashtree.cpp:204-290 | The next leaf and the nodes above it appear, linked to the old ones; no other node does, and the root is the smallest over the chunks. |
| LiveTrees.LiveHashTree.AddData | livehashtree.cpp:172-201 | After n chunks, with any pruning before, the nodes are exactly those over the chunks that were not pruned, their links are those of their bins, and the cursor is leaf n-1. |
| LiveTrees.LiveHashTree.PruneTree | livehashtree.cpp:150-165 | For a subtree left of the cursor, exactly its nodes go. |
| LiveTrees.LiveHashTree.ComputeTree | livehashtree.cpp:354-370 | A full subtree gets its recursive Merkle hash, though verified nodes are not visited again. |
| LiveTrees.LiveHashTree.LastMunro | livehashtree.cpp:306-319 | At a multiple of 2^layer chunks, the munro is the bin of the last 2^layer of them. |
| LiveTrees.LiveHashTree.AddSignedMunro | livehashtree.cpp:323-351 | Its hash to sign is the recursive Merkle root of those chunks (RFC 7574, section 6.1.2). |
| Manager.SwarmManager.GetSwarmLocation | swarmmanager.cpp:824-855 | The binary search gives the place of a hash or the one where it belongs. |
| Manager.SwarmManager.OneHash | swarmmanager.cpp:927-1016 | Two registered swarms never have one hash. |
| Manager.SwarmManager.constructor | swarmmanager.cpp:927-1016 | The invariant holds at the start. |
| Manager.BucketIs | swarmmanager.cpp:271 | The bucket of a hash is given by the low six bits of its first byte. |
| Manager.SwarmManager.FindByHash | swarmmanager.cpp:594-605 | Finds the swarm with the hash, or null exactly if none is registered. |
| Manager.SwarmManager.FindById | swarmmanager.cpp:581-591 | The same by id. |
| Manager.SwarmManager.AddSwarm | swarmmanager.cpp:294-403 | The invariant stays; a known hash adds nothing and gives the registered swarm, an unknown one adds exactly one; no hash, no change. The new swarm becomes active exactly if asked for, or needed to learn its hash, with room or an idle swarm to evict and an operational transfer; its time of use is then the time of the call, and its id the oldest free one once the delay is over, else a new one. No other swarm changes but the one evicted, the least recently used idle one. |
| Manager.SwarmManager.Register | swarmmanager.cpp:351-377 | A new swarm gets an id and its place in its bucket; all other parts of the invariant stay. |
| Manager.SwarmManager.TakeId | swarmmanager.cpp:356-372 | The id freed longest ago is taken again if the delay since then is over, else the next new one; the free ids remain exactly the holes of the id list. |
| Manager.SwarmManager.Delays | swarmmanager.cpp:18-19 | An id is free for use after 120 microseconds, and a swarm idle after 300 seconds without use. |
| Manager.SwarmManager.RemoveSwarm | swarmmanager.cpp:452-492 | The invariant holds afterwards if and only if the hash is known or its bucket has no greater one; then exactly that swarm is gone, its id is the last free one with the time, and ids and activity of the others stay. |
| Manager.SwarmManager.Close | api.cpp:184-193 | The only caller, closing by id, removes exactly the swarm with the id, frees the id, and keeps the invariant. |
| Manager.RemoveUnknown | swarmmanager.cpp:452-492 | With one swarm of hash 2, removing hash 1 breaks the invariant. |
| Manager.SwarmManager.Activate | swarmmanager.cpp:629-680 | Succeeds exactly if the swarm is active already, or there is room or a swarm idle past the limit, and a transfer. A swarm is evicted exactly if room is needed and one is idle; it is the least recently used idle one, and all others stay as they were. The active count does not pass the maximum, nor rise when already there. |
| Manager.SwarmManager.ActivateByHash | swarmmanager.cpp:608-627 | The same by hash; null for a known hash means that it could not be activated, with the same conditions. Only a swarm just activated has its time of use cleared. |
| Manager.SwarmManager.DeactivateAt | swarmmanager.cpp:682-723 | The swap with the last entry removes exactly that swarm from the active list. |
| Manager.SwarmManager.Deactivate | swarmmanager.cpp:748-773 | Exactly the longest idle swarm past the limit goes; nothing if none is. |
| Manager.SwarmManager.DeactivateByHash | swarmmanager.cpp:725-746 | Exactly the swarm with the hash becomes inactive. |
| Manager.SwarmManager.SetMaximum | swarmmanager.cpp:791-807 | Swarms go only while the active count is above the new maximum, only those idle past the limit, least recently used first; if the count stays above, none is idle. |
| Storages.ConcatSplice | storage.cpp:279-309 | Overwriting inside one file is overwriting at the file's offset in the one run of bytes. |
| Storages.MultiFile.FindStorageFile | storage.cpp:314-329 | The binary search finds the file over an offset, also among empty files, and null exactly outside. |
| Storages.MultiFile.Locate | storage.cpp:203-213 | The cache of the last file and the search agree, and the file found is the last one then. |
| Storages.MultiFile.WriteBuffer | storage.cpp:279-309 | As much as fits goes into the file; head and tail add up. |
| Storages.MultiFile.Write | storage.cpp:197-231 | A write split over files is one write to the run; past the end, what fits is written and an error returned. |
| Storages.MultiFile.Read | storage.cpp:440-491 | A read over several files is one read of the run, cut at its end. |
| Storages.Wrapped.Write | storage.cpp:128-146 | In-order writes of any size, split where the window wraps, keep each byte of the last window at its offset modulo the window. The count returned is that of the last piece, which is the whole exactly if nothing wraps. |
| Storages.PieceCounts | storage.cpp:128-146 | The last piece of a write is the last piece of its rest; it is the whole write exactly if nothing wraps. |
| Storages.ShortCount | storage.cpp:128-146 | Six bytes written through a window of four: the count is two. |
| Storages.Wrapped.Read | storage.cpp:440-460 | A read returns the bytes of the file from there on, as many as asked for or as there are; those inside the last window are those last written there, and if it does not wrap it is complete. |
| Storages.ChunkFits | live.cpp:198-201 | Reads of whole chunks at chunk boundaries never wrap when the window is a whole number of chunks. |
| Getopt.Gcd | getopt_long.c:143-158 | Euclid's loop ends in a common divisor that no common divisor exceeds, and that is a combination of both numbers. |
| Getopt.OrbitCycle | getopt_long.c:165-200 | The jumps from a start are a cycle through exactly the places congruent to it, each once. |
| Getopt.Turn | getopt_long.c:185-199 | One cycle of swaps carries each entry of its class to its new place and touches nothing else. |
| Getopt.PermuteArgs | getopt_long.c:165-200 | The second block followed by the first, order kept in both, the rest of the array untouched, for all positive block lengths. |
| Sha1.ChIs | sha1.cpp:118-119 | The three-operation form of the choice function is the standard's (FIPS 180-4, section 4.1.1). |
| Sha1.MajIs | sha1.cpp:121 | The sum of two disjoint masks is the standard's majority function. |
| Sha1.Mixed | sha1.cpp:104-111 | The four taps of the rolling 16-word array give the word of the 80-word schedule. |
| Sha1.T | sha1.cpp:113-122 | A round that changes two registers, with the rest renamed by the caller, is one step of section 6.1.2 of FIPS 180-4. |
| Sha1.Block | sha1.cpp:124-230 | The 80 unrolled rounds compute the standard's function of hash value and block. |
| Sha1.Context.constructor | sha1.cpp:232-242 | The initial context stands for the empty message. |
| Sha1.Context.Update | sha1.cpp:244-270 | Updating a context that stands for a message gives one that stands for the message with the data appended, through partial fills and whole blocks. |
| Sha1.LengthHalves | sha1.cpp:281-284 | The two 32-bit words written at the end are the eight length bytes. |
| Sha1.PaddedOnce | sha1.cpp:272-289 | A message has one padding (FIPS 180-4, section 5.1.1). |
| Sha1.Context.Final | sha1.cpp:272-289 | The result is the digest of the padded message. |
| Sha1.HashParts | sha1.cpp:244-289 | However a message is split into updates, the result is that digest. |
| Sha1.OneHash | sha1.cpp:244-289 | So two ways to split one message give the same result. |
| Sha1.KnownAnswer | sha1.cpp:60-289 | Whatever is a digest of "abc" is a9993e36 4706816a ba3e2571 7850c26c 9cd0d89d, derived word by word and step by step from the definition. |
| Sha1.BigEndianBytes | sha1.cpp:92-95 | A word read from four bytes has these four, most significant first. |
| Sha1.KIs | sha1.cpp:118-122 | The four constants are the integer parts of 2^30 times the square roots of 2, 3, 5 and 10. |

## Left out

Contracts that state less than the code's documentation would suggest, and why:

- Complement.FindComplement: for a twist of 2^31 or more together with wanted chunks of 2^31 or more, only `NONE` is exact; binmap.cpp:1708 cuts the offset to 32 bits.
- Complement.FindMatch: the same limit.
- Queries.Cover: in a root that is itself filled or empty some bins are answered with a half of it, which is not topmost; `HalfOnly` says for which.
- Offer.Verifier.OfferHash: the early comparison at hashtree.cpp:547-548 and the zero test at hashtree.cpp:569-570 are modelled, but nothing is claimed about the truth of a hash accepted by the former, nor, beyond the exact answer and the slots written, about the tree after an accepted climb that the latter cut short. Files have fewer than 2^60 chunks, since the hash file takes 40 bytes a chunk of address space.
- Offer.Verifier.OfferData: the same two exceptions; writing the chunk and resizing the file are not modelled.
- Merkle.FileTree.Submit: chunks are read without error; their hashes are a function of the chunk number.
- Merkle.FileTree.OfferPeakHash: mapping and resizing files after success is not modelled, and the byte size of the content is not kept.
- Manager.SwarmManager.AddSwarm: the hash found on disk, the hash of a built transfer and whether the transfer is operational are parameters; a transfer is operational or there is none; cached fields of swarms are not modelled.
- Manager.SwarmManager.RemoveSwarm: deleting state and content is not modelled.
- Swarm.Transfer.OnHave: for a transfer whose own content is incomplete, with at least two connections and chunks below 2^31.
- Queues.Channel.DequeueHint: the pushing of chunks that nobody asked for (switched off by ENABLE_SENDERSIZE_PUSH) is not modelled.
- Queues.Channel.CleanHintOut: the queue of cancelled requests (switched off by ENABLE_CANCEL) is not modelled.
- Live.PrunePosition: the comparison with the last pruned position at a client is not modelled.
- Have.AddHave: own maps below 2^31; the announcement of a single recent chunk and the peaks announced in zero state come before the loop and are not modelled.
- Peaks.GenPeaks: lengths are below 2^63; beyond, bin numbers would wrap around.
- Storages.MultiFile.Write: the states before the file list is complete are not modelled, nor the narrowing of the recursive result to `int`.
- Live.Source.Resume: the checkpoint is read and its munro verified; the tree of a resumed source is not modelled.
- Avail.Availability.constructor: at least two connections, since setBin puts new chunks at index 1 (avail.cpp:53).
- Swarm.Transfer.constructor: at least two connections, for the same reason.
- Avail.Availability.Set: announcements below 2^31, where the search for new chunks is right.
- Avail.Availability.RemoveBinmap: peer maps below 2^31.
- Have.NextHave: own maps below 2^31.
- Sha1.Context.Final: messages are shorter than 2^61 bytes.
- LiveTrees.LiveHashTree.PruneTree: only subtrees left of the cursor, as the source prunes them; freeing memory is not modelled.
- LiveTrees.LiveHashTree.AddSignedMunro: the signature and the timestamp are not modelled; `log2` is the exact exponent of a power of two.

Simplifications of form:

- Cell and node allocation always succeeds; out-of-memory paths are not modelled.
- The fixed stacks of the walks (`_bin_[64]` and the like) are sequences; the history of `Trace` is proved to fit its array.
- Cell copying sets the root before cloning in the code and after it here; nothing reads it in between.
- The live tree computes the peaks when it needs them instead of keeping them in fields.
- Hashes of swarms are numbers, so that their order is the comparison of bytes.

Not modelled:

- The range form of `binmap_t::copy`, `binmap_t::empty`, and the text form of maps and trees.
- The code after the return at binmap.cpp:945, which cannot be reached, and `layer_shifted`.
- The seeder shortcut of the availability (avail.cpp:88-113, 194-219), `addBinmap` and `find_empty` there.
- The client side of the live tree: acceptance of hashes and munros, and the checkpoint bootstrap.
- `data_out_` bookkeeping, round-trip and LEDBAT estimates, piece pickers, PEX.
- Sockets, timers, gateways, JNI, signing, speed averages.

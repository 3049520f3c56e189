# Verified model of PDC

PDC (Proactive Data Containers) keeps objects, their metadata and their storage regions on a set of servers
that clients talk to. This project models the parts of it with the most state, branching and index arithmetic,
and proves what they promise over all inputs, runs and arrival orders. Where the code does not meet the
property one would expect of it, the model keeps the code as it is, and a lemma says exactly when it does.

`dafny verify dfyconfig.toml` checks everything.

| files | what they model |
|---|---|
| `ServerMetadata`, `CheckpointFormat`, `Restore`, `Checkpointing` (over `Bytes`, `Parsing`, `Basics`) | saving a server's metadata to a checkpoint and restarting from it |
| `ListSort` | the linked-list merge sort that a restart sorts regions with |
| `RegionGeometry`, `RegionRead` | reading the part of a stored region that a request overlaps |
| `Segments` | the memory segments a client maps for a region |
| `ShmLayout` | copying objects into one shared-memory segment |
| `QueryValues`, `QueryTree`, `QueryWire`, `QueryServers` | building data queries, how their bounds are stored and read, sending them, and choosing and chaining the servers |
| `QueryEvaluation`, `QuerySelection` | how a server visits a query and merges its leaves into one selection, and when that is what the client asked for |
| `SelectionFetch` | waiting for the data of a selection that servers push in any order |
| `TwoWaits`, `RequestList`, `NameQuery` (over `Gather`) | asking the metadata servers for many names, and doing so for a whole node |
| `KvtagQuery` (over `Gather`) | tag queries by one client, and by all clients together |
| `ObjectIds` | how object ids are handed out and lead back to their server |
| `RequestMerging`, `MultiDatasets` | the multi-dataset plugin: registering, appending, merging and flushing writes |
| `Intervals` | the analysis of timing logs: coalescing, overlaps, gaps |

Code that updates variables or arrays is a method with loops, proved against a function of its inputs; lemmas
then state what that function means without naming its definition.

## What the proofs found

- The order of restored storage regions compares starts as little-endian bytes. It is the numeric order only
  below 256 (`Restore.OrderIsNumericBelow256`).
- Server id counters start over after a restart, so ids are handed out twice exactly when a server that had
  made objects makes more (`ObjectIds.IdsDistinctExactly`).
- The one-shot read of a fully selected region is right only when the request's rows run on
  (`RegionGeometry.OneShotExactlyWhenRowsRunOn`).
- A fetch waits for good, or gives up, if all chunks arrive before the client leaves its first wait
  (`SelectionFetch.FetchEndsExactly`).
- A server keeps one selection for a whole query and merges the leaves into it from left to right. That is what
  the tree means exactly when every right operand is a leaf or has its parent's operator alone
  (`QueryEvaluation.FoldIsMeaningExactly`): `A or (B and C)` is evaluated as `(A or B) and C`. Behind an OR whose
  left operand is no leaf it looks for a constraint that is not there (`QueryEvaluation.FindsExactly`). An OR of two
  leaves on one object leaves duplicates, and a later OR that counts them can lose elements
  (`QueryEvaluation.VisitIsFoldExactly`).
- A range keeps the bytes of its bounds in doubles and is read by converting the doubles. Doubles are read right;
  a range of floats or of four-byte integers is read as one at zero (`QueryTree.FourBytesReadRightExactly`), as the
  energy range of the repository's own test is (`QuerySelection.EnergyRangeIsWrong`). Joining a bound to a range
  drops the range's upper bound. Both conditions together decide when a query and all its parts select what
  they mean (`QuerySelection.RightExactlyWhenSound`).
- The short cut for a zero offset in the fastest dimension ignores the slower offsets
  (`Segments.MapsRegionExactly`).
- Request numbers above 99999 are never found again (`RequestList.AnsweredExactly`); names of more than 63
  characters are cut, so a rank can get other records through its leader than by asking itself
  (`NameQuery.SameAsAskingOneselfExactly`). Asking a server waits for good if both its callbacks run before the
  client first looks at its counter (`TwoWaits.ReturnsExactly`).
- The two loops that merge write requests disagree for requests out of order
  (`RequestMerging.LoopsAgreeExactlyInOrder`), a flush is right for two element types only
  (`RequestMerging.FlushRightExactlyForNamedTypes`), and appending starts at the beginning of the object again
  after a flush (`MultiDatasets.FlushBetweenExactly`).
- Gaps between intervals that were not coalesced can lie inside an interval (`Intervals.GapsRightExactly`).
- The first target of a query chain, and a single target, can be sent stale links
  (`QueryServers.HeadPrevExactly`, `QueryServers.SingleTargetExactly`).

## Model

| member | source | states |
|---|---|---|
| Checkpointing.Checkpoint | src/server/pdc_server.c:1276-1373 | The file holds the encoding of the server's containers, groups, data regions and query blob, whatever order the hash tables are walked in. |
| Checkpointing.Restart | src/server/pdc_server.c:1482-1727 | On any bytes, the file loops build the state that the stream holds and stop where it is cut short or has a negative region count, having read exactly what the stream reader reads. |
| Checkpointing.CheckpointThenRestart | src/server/pdc_server.c:1276-1727 | For every well-formed server, a restart from its checkpoint reads it to the last byte and rebuilds that server: the same containers, data regions, groups, objects and tags, metadata that differs in one flag, and of each object the same regions rearranged, each with its dimensions, extents, unit, locations, offsets and histogram. Where the regions of each object have one dimensionality they are ordered exactly as the stable sort orders them. |
| Checkpointing.RestoredKeepsState | src/server/pdc_server.c:1535-1672 | What a restart keeps is stated field by field, without the functions that restore. |
| Checkpointing.CheckpointTwice | src/server/pdc_server.c:1276-1727 | A server closed and reopened twice, its tables walked in any order each time, is the one closed and reopened once, where the regions of each object have one dimensionality. |
| Checkpointing.SecondRestartIsFirst | src/server/pdc_server.c:1482-1727 | Whatever two restarts in a row make of a server, the second changes nothing, under the same condition. |
| Checkpointing.RestartedIsWellFormed | src/server/pdc_server.c:1482-1727 | A restarted server can be checkpointed again. |
| Checkpointing.StateDetermined | src/server/pdc_server.c:1634-1692 | With one dimensionality an object, the restored state is unique. |
| Checkpointing.ReadRegionList | src/server/pdc_server.c:1579-1672 | The regions of an object are read, reset and sorted as the stream says; a negative count stops the restart. |
| Checkpointing.ReadObject | src/server/pdc_server.c:1537-1673 | One object with its tags and regions is read from exactly its own bytes. |
| CheckpointFormat.StreamBack | src/server/pdc_server.c:1276-1373 | Reading back what was written gives the same content and leaves everything behind it unread. |
| CheckpointFormat.TruncationIsNoticed | src/server/pdc_server.c:1482-1727 | Every proper prefix of a checkpoint runs into the end of the file. |
| CheckpointFormat.StreamsAreDistinct | src/server/pdc_server.c:1276-1373 | Different contents never share a checkpoint. |
| ServerMetadata.RegionFieldsBack | src/server/include/pdc_client_server_common.h:156-199 | A region struct written raw is read back field by field. |
| ServerMetadata.MetadataFieldsBack | src/server/include/pdc_client_server_common.h:354-401 | A metadata struct written raw is read back field by field. |
| Restore.DataSize | src/server/pdc_server.c:1634-1666 | The size loop gives the product of the counts, wrapped to 64 bits. |
| Restore.RestoreKeepsRegion | src/server/pdc_server.c:1594-1666 | Of a region everything stays but its size, which becomes the product of its counts in 64 bits, its owner, its kind of location, which becomes Lustre if the scratch path stands in its text and stays otherwise, and the running server's fields, which are cleared. |
| Restore.RestoredRegions | src/server/pdc_server.c:1634-1672 | An object's regions come back as the same multiset, reset, with their owner and size set, sorted by start, ties in the order they had. |
| Restore.RegionsOrdered | src/server/pdc_server.c:1427-1432 | The comparison is a total preorder on regions of one dimensionality. |
| Restore.OrderIsNumericBelow256 | src/server/pdc_server.c:1427-1432 | On regions of any one dimensionality with starts below a bound, the comparison is the numeric order, dimension after dimension, if and only if the bound is at most 256. |
| Restore.OrderIsNotNumeric | src/server/pdc_server.c:1427-1432 | A region at 256 is put before one at 1. |
| Restore.RestartSettles | src/server/pdc_server.c:1482-1727 | Restoring twice is the same as restoring once. |
| ListSort.Sort | src/server/include/pdc_utlist.h:214-297 | The bottom-up merge sort permutes its list, and for a preorder gives the stable sort of it. |
| ListSort.StableSortIsStable | src/server/include/pdc_utlist.h:214-297 | The reference sort is sorted, a permutation, and keeps tied elements in order. |
| ListSort.PassDoubles | src/server/include/pdc_utlist.h:222-290 | A pass over sorted runs leaves sorted runs of twice the length. |
| ListSort.MergeSorts | src/server/include/pdc_utlist.h:240-280 | Merging two sorted runs is sorting both together. |
| RegionRead.GetOverlap | src/server/pdc_client_server_common.c:6774-6864 | For any counts, also zero, and any number of dimensions, the test and the clipping of the source, where a result below zero wraps around to 64 bits; for one to three dimensions and counts above zero an overlap is found exactly when the regions meet, and is their intersection. |
| RegionRead.MeetsExactly | src/server/pdc_client_server_common.c:6774-6864 | Regions meet if and only if some coordinate lies in both. |
| RegionRead.AllSelectedExactly | src/api/pdc_client_connect.c:7084-7091 | A storage region counts as fully selected if and only if the request contains it. |
| RegionRead.ReadOverlapRegions | src/api/pdc_client_connect.c:7035-7200 | The read fails exactly for other than one to three dimensions, regions that do not meet, or a file that ends too early; otherwise it counts the bytes of the overlap and leaves the one-shot image of a fully selected region and the row-by-row image of any other; in one dimension and wherever the rows run on it is the row-by-row image in any case. |
| RegionRead.ReadRightExactly | src/api/pdc_client_connect.c:7061-7197 | The read leaves the row-by-row image for every buffer and file if and only if the region is not fully selected or its rows run on, as they do in one dimension. |
| RegionRead.ReadPlane | src/api/pdc_client_connect.c:7140-7192 | Rows reached by relative seeks are the rows of the plane, each at its place in the buffer. |
| RegionRead.CoordinateIsCopied | src/api/pdc_client_connect.c:7061-7197 | Every coordinate of both regions gets the stored byte of that coordinate, inside the buffer and the file. |
| RegionRead.RestIsKept | src/api/pdc_client_connect.c:7061-7197 | Every other byte of the buffer keeps its value. |
| RegionGeometry.OneShotInside | src/api/pdc_client_connect.c:7084-7131 | The one-shot read never leaves the buffer. |
| RegionGeometry.OneShotExactlyWhenRowsRunOn | src/api/pdc_client_connect.c:7084-7131 | The one-shot read gives the row-by-row image for every buffer and file if and only if the request's extents equal the overlap's wherever rows or planes follow. |
| Segments.MapSegments | src/api/pdc_client_connect.c:3785-3854 | For one to three dimensions, and only those, the segments are adjacent and reach exactly the region's number of bytes; with an offset in the fastest dimension every segment is one row of the region, at the place of its own coordinate; they are the region's bytes if and only if the short cut is not taken or all slower offsets are zero. |
| Segments.MapTwice | src/api/pdc_client_connect.c:3785-3854 | Raising one offset moves all bytes mapped by one unit, one row or one plane, and with all offsets zero they start at byte 0. |
| Segments.FillPlanes | src/api/pdc_client_connect.c:3828-3851 | The nested loops fill every slot: segment k starts k rows behind the first. |
| Segments.FillRow | src/api/pdc_client_connect.c:3809-3820 | A row of segments is filled, each behind the one before it. |
| Segments.MapsRegionExactly | src/api/pdc_client_connect.c:3785-3854 | For any segments as mapped: they reach the region's bytes, each once, under that condition and no other; without it byte 0 is mapped wrongly and the region's last byte is missed. |
| ShmLayout.CopyToSegment | src/api/pdc_client_connect.c:6424-6458 | Every object that is not skipped can be read back whole from its offset; the first copy is at the start and each other right behind the padded one before it, in a segment of the size the first pass computes. |
| ShmLayout.ClearOf | src/api/pdc_client_connect.c:6450-6456 | Copies start on pages and keep clear of each other. |
| ShmLayout.RoomFilledExactly | src/api/pdc_client_connect.c:6424-6456 | The copies fit, and end at the computed size if and only if every skipped object is empty. |
| ShmLayout.RoomForAll | src/api/pdc_client_connect.c:6424-6440 | That size is the room copying every object would take. |
| QueryValues.SameRangeExactly | src/api/pdc_query/pdc_query.c:156-200 | Two ranges let the same values of a type through if and only if, their bounds settled for that type, they are equal or both empty. |
| QueryValues.EightBytesReadAsZero | src/server/pdc_server_region/pdc_server_data.c:7002-7036 | An eight-byte integer that is not negative and below the bits of 1.0 is read as zero. |
| QueryValues.WholeDoublesAreRead | src/server/pdc_server_region/pdc_server_data.c:7002-7036 | The bits of a double that holds a whole number below 2^53 are read as that number, negative ones as signed. |
| QueryValues.LargeDoublesAreRead | src/server/pdc_server_region/pdc_server_data.c:7002-7036 | Those of larger doubles are read as what they hold while it fits the type, and are undefined beyond. |
| QueryTree.FusedRightExactly | src/api/pdc_query/pdc_query.c:78-228 | A fused range is read, for all values of its type, as both of its constraints together if and only if its converted bounds let the same values through; a range that is joined to an upper bound counts with the bound it loses. |
| QueryTree.DoublesReadRight | src/api/pdc_query/pdc_query.c:156-200 | Two bounds that are doubles are always read right. |
| QueryTree.FourBytesReadRightExactly | src/server/pdc_server_region/pdc_server_data.c:7002-7036 | Two bounds of a four-byte type are always fused, and read right if and only if both are zero and included, or no value lies between them and one of them is excluded. |
| QueryTree.FloatRangeIsMisread | src/tests/query_vpic.c:20-38 | Of energies between 3.75 and 4 as floats, the range lets the energy 0 through and nothing else. |
| QueryTree.Builds | src/api/pdc_query/pdc_query.c:22-254 | Every expression over objects, operators, comparable types and values of them can be built. |
| QueryEvaluation.FoldIsMeaningExactly | src/server/pdc_server_region/pdc_server_data.c:7353-7368 | For every tree whose leaves have different constraints, on the same objects or not, merging the leaves from left to right with the operators handed down gives the tree's meaning, for all truth values of the leaves, if and only if every right operand is a leaf or is built with its parent's operator alone. |
| QueryEvaluation.NestedRightIsWrong | src/server/pdc_server_region/pdc_server_data.c:7353-7368 | A or (B and C) is evaluated as (A or B) and C, and misses what matches A alone. |
| QueryEvaluation.EvaluateScan | src/server/pdc_server_region/pdc_server_data.c:6916-7336 | One leaf, with its early exits, scan, compaction and removal of duplicates, leaves the selection that its constraint, the selection before and the operator determine, or goes down. |
| QueryEvaluation.OrAddsExactly | src/server/pdc_server_region/pdc_server_data.c:6976-7325 | An OR behind a leaf on any object adds exactly what matches, if and only if it is not the case that the selection has as many entries as there are elements, duplicates counted, and misses one that matches; without duplicates it always does. |
| QueryEvaluation.DownExactly | src/server/pdc_server_region/pdc_server_data.c:7293-7294 | The server goes down at a leaf if and only if it is an OR whose left operand holds no constraint, the selection has not as many entries as there are elements, and it has two or more with the new ones. |
| QueryEvaluation.VisitQuery | src/server/pdc_server_region/pdc_server_data.c:7353-7368 | The recursive visit evaluates the leaves from left to right, each with the operator and the left operand handed down. |
| QueryEvaluation.VisitIsFold | src/server/pdc_server_region/pdc_server_data.c:6916-7368 | For every tree in which each OR has a leaf on its left and none follows an OR on a shared object, the visit selects every element exactly as the leaves merged in turn say, and none twice unless leaves share an object. |
| QueryEvaluation.VisitIsFoldExactly | src/server/pdc_server_region/pdc_server_data.c:6916-7368 | Of trees whose leaves have different constraints and whose ORs have leaves on their left, exactly those without an OR behind an OR on a shared object are visited so, whatever the leaves match: any other loses an element. |
| QueryEvaluation.FindsExactly | src/server/pdc_server_region/pdc_server_data.c:6916-7368 | Over all trees whose leaves have different constraints, the server stays up and selects exactly the elements the tree means, whatever the leaves match and however many elements there are, if and only if every right operand is a leaf or has its parent's operator alone, the left operand of every OR is a leaf, and no OR follows an OR on a shared object. |
| QueryEvaluation.SameObjectSelectsTwice | src/server/pdc_server_region/pdc_server_data.c:7301-7325 | Two leaves on one object joined by OR select twice what both match. |
| QuerySelection.RightExactlyWhenSound | src/server/pdc_server_region/pdc_server_data.c:6916-7368 | For every expression of create, and and or calls whose leaves have objects of their own and can be satisfied: it and each of its parts make the server select, for all data, exactly the elements they mean if and only if every range in it is read right, every right operand is a leaf or has its parent's operator alone, and the left operand of every OR is a leaf. |
| QuerySelection.SoundIsRight | src/server/pdc_server_region/pdc_server_data.c:6916-7368 | Whatever objects its leaves are on and whether they can be satisfied, an expression that meets these conditions, and has no OR behind an OR on a shared object, makes the server select exactly what it means. |
| QuerySelection.EnergyRangeIsWrong | src/tests/query_vpic.c:20-38 | For the energy range of the query test the server does not select what is asked. |
| QuerySelection.NestedIsWrong | src/server/pdc_server_region/pdc_server_data.c:7353-7368 | Three comparisons on three objects, nested to the right, for which the server does not select what is asked. |
| QueryWire.OpsFit | src/server/pdc_client_server_common.c:7176-7211 | The operator array has exactly the room the walk needs. |
| QueryWire.SerializeQuery | src/server/pdc_client_server_common.c:7176-7211 | Both arrays are filled completely with the tree's preorder. |
| QueryWire.Serialize | src/server/pdc_client_server_common.c:7027-7050 | The recursive walk writes the operators and constraints from the counters on and nothing else. |
| QueryWire.RoundTripExactlyWhenReadable | src/server/pdc_client_server_common.c:7027-7086 | Sending and receiving gives the query back if and only if its operators are readable. |
| QueryWire.BuiltRoundTrip | src/server/pdc_client_server_common.c:7027-7086 | So it does for every query a client can build. |
| QueryServers.GetServers | src/api/pdc_client_connect.c:8073-8104 | The walk appends the servers of the leaves, each once, by first occurrence, and never overruns an array with one entry a server. |
| QueryServers.LeafServersExactly | src/api/pdc_client_connect.c:8073-8104 | The walk names one server for each constraint that is sent, in that order: the one its object lies on. |
| QueryServers.TargetServers | src/api/pdc_client_connect.c:8163-8166 | The targets are distinct, a server is one if and only if the object of some constraint lies on it, and they come in the order of the constraints that name them first. |
| QueryServers.FirstsInOrder | src/api/pdc_client_connect.c:8073-8104 | Targets come in the order in which leaves first name them. |
| QueryServers.SendLinks | src/api/pdc_client_connect.c:8176-8192 | The loop with carried link variables sends each server the links that the targets determine. |
| QueryServers.LinksAreRight | src/api/pdc_client_connect.c:8176-8192 | With two targets or more, next leads to the following target and previous back, except from the head. |
| QueryServers.OthersUnlinked | src/api/pdc_client_connect.c:8176-8192 | Servers that are no targets get no links. |
| QueryServers.ChainVisitsAll | src/api/pdc_client_connect.c:8176-8192 | Followed from the manager, the chain visits every target once and stops. |
| QueryServers.HeadPrevExactly | src/api/pdc_client_connect.c:8176-8192 | The head's back link says none if and only if the server before it exists and is no target. |
| QueryServers.SingleTargetExactly | src/api/pdc_client_connect.c:8176-8192 | A single target ends the chain if and only if it is not server 0. |
| SelectionFetch.Fetch.OnAck | src/api/pdc_client_connect.c:231-259 | The acknowledgement is the step of the protocol. |
| SelectionFetch.Fetch.LeaveFirstWait | src/api/pdc_client_connect.c:8354-8368 | Leaving the first wait is the step of the protocol: on to the second, or failed without an acknowledgement. |
| SelectionFetch.Fetch.OnChunk | src/api/pdc_client_connect.c:8396-8450 | The arrival of a chunk is the step of the protocol. |
| SelectionFetch.Fetch.LeaveSecondWait | src/api/pdc_client_connect.c:8366-8390 | Chunks are copied out by sequence id, and the slots and counter are cleared. |
| SelectionFetch.RunKeepsInv | src/api/pdc_client_connect.c:8317-8450 | Every run, in any order of events, keeps the protocol's invariant. |
| SelectionFetch.SignalledOnce | src/api/pdc_client_connect.c:8425-8450 | Completion is signalled once, by the arrival that completes the result. |
| SelectionFetch.FetchEndsExactly | src/api/pdc_client_connect.c:8317-8450 | A settled fetch ends with its data, ready to be repeated, if and only if the result was not complete when the client left its first wait; else it failed or waits for good. The user's bytes are then the data of the chunks that arrived, each behind that of all smaller sequence ids, and nothing else. |
| SelectionFetch.OrderDoesNotMatter | src/api/pdc_client_connect.c:8366-8450 | Two fetches that end with the same chunks give the user the same bytes, whatever the order of arrival. |
| SelectionFetch.LateLookHangs | src/api/pdc_client_connect.c:8356-8368 | A run in which the client waits for good with all its data received. |
| RequestList.Requests.Add | src/api/pdc_client_connect.c:5902-5918 | Live requests keep distinct numbers below the counter. |
| RequestList.Requests.Delete | src/api/pdc_client_connect.c:5920-5936 | Exactly that request leaves, though it is renumbered first. |
| RequestList.Requests.Find | src/api/pdc_client_connect.c:5938-5956 | Finds the live request with that number, and nothing outside the accepted numbers. |
| TwoWaits.ReturnsExactly | src/api/pdc_client_connect.c:6725-6731 | In every order of acknowledgement, reply and looks at the counter, the client comes back if and only if it looked between the two callbacks; else it waits for good. |
| TwoWaits.BothFirstHangs | src/api/pdc_client_connect.c:6725-6731 | A run that ends waiting for good: acknowledgement and reply both come before the first look. |
| TwoWaits.LookBetweenReturns | src/api/pdc_client_connect.c:6725-6731 | A run that comes back: the client looks between the two callbacks. |
| TwoWaits.RunKeepsInv | src/api/pdc_client_connect.c:352-376 | Every run of the two waits keeps the invariant that decides this. |
| RequestList.Exchange | src/api/pdc_client_connect.c:6998-7024 | In every such order, the client comes back exactly then, and the reply reaches its request while the number is accepted; later requests stay in the list unanswered. |
| RequestList.AnsweredExactly | src/api/pdc_client_connect.c:5902-5956 | Of a series of exchanges the m-th is answered if and only if the counter, moved on by two for each one before, is still accepted. |
| NameScatter.SortByServer | src/api/pdc_client_connect.c:6661-6671 | Names go to the bucket of their server, in order, with their positions. |
| NameScatter.Scatter | src/api/pdc_client_connect.c:6661-6749 | The client comes back if and only if it does from every server asked; then every position has the record that its own server holds of its own name, or is empty if that server's turn came after the numbers ran out. |
| NameScatter.AnsweredInFullExactly | src/api/pdc_client_connect.c:6661-6749 | All positions are filled if and only if the numbers last for all servers with names. |
| NameQuery.RotationIsOrder | src/api/pdc_client_connect.c:6674-6677 | The rank-rotated order visits every server exactly once. |
| ServerMetadata.HashWraps | src/server/pdc_client_server_common.c:307-320 | The hash that picks a name's server, wrapped at every character, is the unbounded sum wrapped once. |
| NameQuery.QueryMultiStorageInfo | src/api/pdc_client_connect.c:6621-6760 | Whether the query comes back, for every schedule of callbacks, and what it brings back for the client's request number and rotation. |
| NameQuery.RecordsInFullExactly | src/api/pdc_client_connect.c:6661-6749 | A position holds the record of its name from the server of the name's hash, or nothing, and all hold one if and only if the numbers last. |
| NameQuery.GatherNames | src/api/pdc_client_connect.c:6878-6914 | The leader's list is the ranks' names in rank order, as far as the slots keep them, in whatever order blocks arrive. |
| NameQuery.QueryForNode | src/api/pdc_client_connect.c:6878-6952 | The node waits for good, or finds a record missing, exactly when the leader's query does; otherwise each rank gets its stretch of what the leader got, for each of its names the record of its first 63 characters from the server of their hash, in whatever order blocks arrive. |
| NameQuery.SameAsAskingOneselfExactly | src/api/pdc_client_connect.c:6878-6952 | With both queries answered in full, what a rank gets through the leader equals what its own query brings back, from its own request number and rotation, for every directory, if and only if none of its names has more than 63 characters. |
| NameQuery.LongNameDiffers | src/api/pdc_client_connect.c:6878-6952 | For a rank with a longer name, a directory for which the two results differ. |
| NameQuery.AskBothWays | src/api/pdc_client_connect.c:6621-6952 | Both ways run: a rank whose names fit holds the same records both times. |
| KvtagQuery.QueryAll | src/api/pdc_client_connect.c:7591-7623 | One client gets the servers' answers one after the other. |
| KvtagQuery.AssignServer | src/api/pdc_client_connect.c:9075-9096 | A client's range lies between its cut and the next, and is empty when they are equal. |
| KvtagQuery.SharesPartition | src/api/pdc_client_connect.c:9075-9096 | The cuts run from the first server to the last in rank order. |
| KvtagQuery.SharesAre | src/api/pdc_client_connect.c:9075-9096 | With more servers than clients all clients but the last ask equally many and the last also the remainder; otherwise one each, as far as there are servers. |
| KvtagQuery.SharesAreAll | src/api/pdc_client_connect.c:9100-9143 | The clients' shares in rank order are what one client would have got. |
| KvtagQuery.QueryTogether | src/api/pdc_client_connect.c:9146-9345 | The gathered ids are those of the single client in the same order; the final ids are the same set, each once with several clients. |
| Gather.GatherBlocks | src/api/pdc_client_connect.c:9146-9180 | Blocks written at prefix-sum displacements in any order give their concatenation. |
| ObjectIds.Counters.GenObjId | src/server/pdc_server_metadata.c:430-450 | The id is the next of that server, and the other counters stay. |
| ObjectIds.IdsDistinctExactly | src/server/pdc_server.c:807-808 | Over every run with restarts, ids are distinct if and only if no server makes objects again after a restart and none runs into the interval of another. |
| ObjectIds.IdLeadsBackExactly | src/api/pdc_client_connect.c:211-215 | An id leads back to its server if and only if the whole intervals filled before it are a multiple of the number of servers; client and server computations agree. |
| ObjectIds.IdFindsItsServer | src/api/pdc_client_connect.c:2837-2843 | While no server makes more than an interval of objects, ids are distinct and lead back, by both computations, to the server that the hash of the name and the time step pick. |
| RequestMerging.MergeRequests | examples/C_plus_plus_example/multidataset_plugin.cc:220-259 | The array is as long as the first loop counts, begins with the merged ranges, and the buffer packs of each request what elements of the given size take up: the whole data for requests of that size. |
| RequestMerging.MergedIsStretches | examples/C_plus_plus_example/multidataset_plugin.cc:236-257 | For all requests, in order or not, there is one merged range for each stretch of requests without a gap, from the start of the first to the end of the last. |
| RequestMerging.CountIs | examples/C_plus_plus_example/multidataset_plugin.cc:227-233 | The first loop counts a range for each request, less those that start where the one before ended. |
| RequestMerging.FlushRanges | examples/C_plus_plus_example/multidataset_plugin.cc:357-375 | The pointer walk writes each range from its place in the buffer. |
| RequestMerging.LoopsAgreeExactlyInOrder | examples/C_plus_plus_example/multidataset_plugin.cc:227-257 | Both loops agree on the number of ranges if and only if no request starts before the end of the one before it. |
| RequestMerging.MergedWritesTheSame | examples/C_plus_plus_example/multidataset_plugin.cc:220-375 | Writing the merged ranges leaves every object as writing the requests one by one, for every element size. |
| RequestMerging.FlushRightExactlyForNamedTypes | examples/C_plus_plus_example/multidataset_plugin.cc:357-375 | The flush is right for all ordered requests if and only if the element type is one of the two it names. |
| MultiDatasets.Plugin.Register | examples/C_plus_plus_example/multidataset_plugin.cc:139-195 | The request joins its dataset; the object is created once, with the element size of that type. |
| MultiDatasets.Plugin.Append | examples/C_plus_plus_example/multidataset_plugin.cc:197-218 | The part joins its dataset behind the last end, or at 0; everything else stays. |
| MultiDatasets.Plugin.Flush | examples/C_plus_plus_example/multidataset_plugin.cc:346-447 | Every dataset with ordered requests is flushed into its object, the other objects stay, and no dataset is left. |
| MultiDatasets.FlushWritesRequests | examples/C_plus_plus_example/multidataset_plugin.cc:346-386 | A flush of ordered requests of a named type leaves the object as writing them one by one. |
| MultiDatasets.AppendsAreOneWrite | examples/C_plus_plus_example/multidataset_plugin.cc:197-375 | A dataset of appended parts is flushed as one write of all of them, from element 0 on. |
| MultiDatasets.RunCalls | examples/C_plus_plus_example/multidataset_plugin.cc:139-447 | After every run of registers, appends and flushes on any names that has the requests of each dataset in order at every flush, each object has the contents that its flushed requests give it written one by one, and each dataset holds the requests since the last flush. |
| MultiDatasets.RunWritesRequests | examples/C_plus_plus_example/multidataset_plugin.cc:139-447 | What merging puts into an object over such a run shows the same bytes as writing every request on its own, in order. |
| MultiDatasets.FlushBetweenExactly | examples/C_plus_plus_example/multidataset_plugin.cc:197-447 | Of two runs, one with a flush between two series of appends and one without, the object holds the same if and only if one series gives it no elements. |
| Intervals.CoalesceIntervals | parser_pdc_log.py:107-118 | In place and for every list, also the empty one, the first entries are the coalesced list. |
| Intervals.CoalescingKeepsCover | parser_pdc_log.py:107-118 | Coalescing covers exactly the instants given, whatever the intervals. |
| Intervals.OrderedApart | parser_pdc_log.py:107-118 | Coalesced intervals are sorted, each ending no later than the next starts. |
| Intervals.CoalescingTwice | parser_pdc_log.py:107-118 | Coalescing again changes nothing. |
| Intervals.SumLengths | parser_pdc_log.py:73-82 | The loop sums the lengths. |
| Intervals.TotalMonotone | parser_pdc_log.py:73-118 | A log that covers no instant another does not has no larger total after coalescing. |
| Intervals.TotalMeasuresCover | parser_pdc_log.py:73-118 | The total after coalescing depends only on the instants covered. |
| Intervals.TotalAdditive | parser_pdc_log.py:73-118 | The totals of two logs that share no instant add up to that of both together. |
| Intervals.CheckAllIntervals | parser_pdc_log.py:96-102 | An overlap is reported exactly when some two intervals overlap. |
| Intervals.OverlapFoundExactly | parser_pdc_log.py:93-102 | After sorting, neighbours decide. |
| Intervals.CheckIntervalGaps | parser_pdc_log.py:132-143 | No answer for an empty list, else the gaps between neighbours in order of start, none of them empty. |
| Intervals.GapsRightExactly | parser_pdc_log.py:132-143 | The gaps are the uncovered part of the span if and only if no interval reaches past the end of a later one that has a gap behind it. |
| Intervals.GapInsideAnInterval | parser_pdc_log.py:132-143 | An input whose reported gap is covered. |
| Intervals.CoalescedGaps | parser_pdc_log.py:107-143 | On a coalesced list the gaps are right, and gaps and intervals together are as long as the span. |

## Left out

- Mercury, MPI, sockets, shared memory and file opening: they are byte sequences, file positions, messages and arrival orders here.
- Checkpointing.Restart: a read that comes up short stops the model; the source logs it and goes on with whatever memory holds.
- Checkpointing.CheckpointThenRestart: asks that no region have more than four dimensions, for which its arrays have no room.
- Restore.DataSize: takes at most four counts; for more dimensions the source reads behind the array.
- Checkpointing.CheckpointTwice: the same server comes back under the condition of Restore.RestartSettles only.
- Restore.RestartSettles: asks that the regions of one object have one dimensionality, without which the comparison is no order.
- Histogram reads: the source compares the result of reading with a byte count and logs an error for every histogram, with no other effect.
- Fields that hold addresses, padding, and the tags and object-id arrays of containers: they are not durable.
- The metadata-query part of a checkpoint: its bytes are kept as one blob.
- The restart's count of regions, which the source increases twice for each object.
- 64-bit wrap-around in region places, segment places and id counters.
- RegionRead.ReadOverlapRegions: asks for counts above zero; with a zero count the source's clipping can wrap around (see RegionRead.GetOverlap) and its read sizes with it.
- QueryTree.FusedRightExactly: floats and doubles are reals without rounding or NaN, hosts are little-endian, and conversions that the language leaves undefined, with that of -2^63 among them, are a parameter.
- QuerySelection.RightExactlyWhenSound: speaks of an expression and all its parts, since the rest of an expression can hide a part that is wrong, and asks for satisfiable leaves on objects of their own, since one that matches nothing, or leaves that exclude each other, can; QuerySelection.SoundIsRight does not ask for it.
- QueryEvaluation.FindsExactly: asks for leaves with different constraints, since a constraint that is there twice can hide a loss; QueryEvaluation.VisitIsFold does not ask for it.
- QueryEvaluation.EvaluateScan: elements are numbered, as in one dimension and one region of all the data; histograms and region constraints that leave regions out, cached values and the FastBit index are not modelled.
- NameScatter.Scatter: a server's reply has one record for each name asked, in order, as the source assumes (src/api/pdc_client_connect.c:6743).
- NameQuery.QueryMultiStorageInfo: makes the same assumption about replies.
- RegionRead.GetOverlap: a start and a count are added without a bound; only differences below zero wrap around.
- SelectionFetch.FetchEndsExactly: an acknowledgement that has not come counts as a failure; the source reads it from memory that was never set.
- SelectionFetch.LateLookHangs: one chunk is enough for a run that hangs; all such runs are in FetchEndsExactly.
- RequestMerging.MergedWritesTheSame: asks for ordered requests, because the source never fills the last ranges of others.
- RequestMerging.MergeRequests: where the element size asks for more bytes than a request brought, the model reads zeros; the source reads behind the buffer.
- MultiDatasets.Plugin.Flush: says nothing of datasets with requests out of order, for the same reason as RequestMerging.MergedWritesTheSame.
- MultiDatasets.RunCalls: asks that each name have one of the two element types a flush names, and for ordered requests as the flush does.
- ObjectIds.IdLeadsBackExactly: asks that the interval number fit in 32 bits, as the server's computation casts it.
- Intervals.TotalMeasuresCover, with the other two results on totals, the overlaps and the gaps: they ask that no interval end before it starts, which log entries do not. Times are reals without rounding.
- Intervals.CoalesceIntervals: intervals are values, so a list that holds one interval object twice is not modelled.
- The rank split of partial queries, the client's read cache, the DART and IDIOMS indexes, the customised gather and the HDF5 tools.
- Region transfer, locking and the server's storage of region data.

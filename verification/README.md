# A verified model of distfs

distfs packs a directory tree into one flat address space of 4 MB chunks: a metadata image,
then the contents of all files. Chunks are compressed, kept in bounded stores, fetched from
peers by checksum, and read back through an in-memory cache by a FUSE file system. This
project models that path from the source tree to the bytes a reader gets, and proves that
what is read is what was packed. Check it with `dafny verify dfyconfig.toml`.

The modules follow the program:

| file | module | what it models |
|---|---|---|
| Prelude.dfy | Prelude | bytes, chunks and offsets, error codes, small lemmas on sequences and sets |
| Bytes.dfy | ByteImage | little-endian words, stores into a buffer, C strings, `strncpy`, `strcmp` |
| SourceTree.dfy | SourceTree | the directory tree and the meaning of a path |
| Image.dfy | Image | the layout of the metadata image |
| MetaFSBuilder.dfy | MetaFSWriter | the image writer: an array that grows, the depth-first scan with back-patching, the placement of files |
| WorkQueue.dfy, Placement.dfy | WorkQueue, Placement | the state of the breadth-first walk, the places of files, the packed disk |
| PackedChunks.dfy | PackedChunks | which buffers a build compresses, and when all of them fit |
| Lookup.dfy, PathResolution.dfy, MetaFileSystem.dfy | ImageLookup, PathResolution, MetaFSReader | the image reader: binary search, path lookup, attributes, links, listings |
| LruCollector.dfy | Lru | the least-recently-used list with its index |
| ChunkStore.dfy | Stores | the bounded chunk store and the codec layer |
| ChunkBuilder.dfy | FlatDisk | the flat disk: a one-chunk write-back buffer over the store |
| Download.dfy | Download | serving a chunk in pieces, fetching it by checksum, the list of hashes |
| DataProvider.dfy | FlatReader | reads through the cache, as one reader at a time sees it |
| FuseMain.dfy | DistFS | mounting, the clamp of a read, paging of a directory |
| EndToEnd.dfy | EndToEnd | all of it together |
| ConcurrentCache.dfy | ConcurrentCache | the cache protocol under all interleavings, as a step system |
| Availability.dfy | Availability | the bit string of a node's chunks |
| ConnectionPool.dfy | PeerPool | candidates, active peers and connections |
| Network.dfy | Network | runs of a network of stores |

## How it is modelled

The writer, the stores, the flat disk, the cache, the pool and the reader are classes with
the fields of the originals; buffers are arrays. Methods are proved against functions on
sequences and maps. Files, directories and peers are parameters: a system call transfers any
positive number of bytes, and what peers answer is an arbitrary function or list.

A *closed definition* has the form `forall k {:trigger OpenP(k)} :: OpenP(k) ==> P`. It means
`P`, but the solver only sees inside when a proof mentions `OpenP`.

The ghost field `ChunkBuilder.fits` tells whether every chunk that was stored so far fitted
when it was compressed. Contracts say exactly when it stays true: `ChunkState` is a simple
builder that writes one byte after the other (`PutAll`), and `Follows` and `Puts` say that all
chunks still fit if and only if the buffers fit that this simple builder stores, which depend
on the input and on what the memory of the first buffer held. Contents on the disk are
promised whenever `fits` holds. `Suits` is the condition on a codec and a tree beforehand;
a codec that has room for every chunk suits every tree (`RoomySuits`).

## Where the code does not do what it should

Each of these is kept as it is, with the exact condition under which it does the right thing.

- Lookup expects the rows of a directory right behind its node, the writer puts attributes
  there (meta/meta_file_system.cc:171). `LookupExact`: lookup is right on every path if and
  only if no directory has both attributes and entries.
- Attribute values are copied by `strncpy` (meta/metafs_builder.cc:48). `StrncpyKeeps`: a value
  survives if and only if nothing but NULs follows its first NUL.
- Times are stored as unsigned nanoseconds. `TimeRoundTrip`: a time survives if and only if it
  is not before 1970.
- The bit string of a set is one byte short when the largest id is a multiple of 8
  (network/chunk_availability.cc:30). `BitmaskRoundTrip`: the set comes back if and only if it
  is empty or its largest id is not a multiple of 8, and otherwise only that id is lost.
- `distfs_read` subtracts unsigned words (fuse/fuse_main.cc:104). `ClampExact`: it asks for the
  right number of bytes if and only if the read starts inside the file or is empty.
- `get_symlink` leaves one byte of the caller's buffer unset and, on every link, writes one
  byte past the given size (meta/meta_file_system.cc:31-32). `LinkTerminated` says when the
  buffer holds the terminated target all the same, `LinkDefined` when the write stays inside.
- A chunk whose compressed form does not fit is stored as an empty file and no error is
  reported (data/compressed_store.cc:23-31). `PackedReadable`: a chunk is readable if and only
  if it fitted. `EndToEnd.Pack`, `PerformAll`: every chunk of a build fits if and only if the
  buffers that its input gives do, and then the build is right. With a codec that does not fit
  some chunk, some build loses it (`Incompressible`).
- The download buffer has room for one chunk (network/connection_pool.cc:50), and the hash of a
  chunk behind the list is read (network/connection_pool.cc:57). `FetchChunk`,
  `ReadChunk` and `Network.Run` are defined if and only if no fetch is ended by such a reply.
- Two loads of one chunk may overlap, when a load fails, an entry is replaced or one is
  evicted, and then one reads a file that the other truncates and writes
  (data/chunk_provider.cc:42-49, data/chunk_store.cc:93-104). `EveryReadRight`: a read succeeds
  if and only if its own load did not fail, and is right unless its own entry got something
  else from such a file, so that all reads are right when none did (`AllReadsRight`). This cannot happen to a chunk that is in the store and stays
  there (`StoredReadsRight`), and with two threads it can happen to every chunk that is not
  (`LoadsOverlap`, `WrongRead`); nor does it happen when no load fails and the cache has room
  for every chunk (`QuietReadsRight`).
- `list_xattr` takes a buffer that is exactly full for a request of the size only
  (meta/meta_file_system.cc:79-88). `ListXattr` states the result for every buffer size.
- `LruCollector::remove` leaves the id in the queue (common/lru_collector.cc:24-27). `Remove`:
  the collector stays valid if and only if the id was not in it.
- `worker_explore` replaces the first of possibly no connections
  (network/connection_pool.cc:264-267). `Explore`: this happens if and only if there is no
  connection and some candidate that is tried is worth connecting.
- `last_explore` is never set, so that every round of the worker explores.

## Model

| member | source | states |
|---|---|---|
| ByteImage.LERoundTrip | meta/metafs_builder.cc:28-36 | a value that fits into a field is read back from its little-endian bytes |
| ByteImage.StrncpyKeeps | meta/metafs_builder.cc:48 | a value copied by strncpy keeps its bytes if and only if nothing but NULs follows its first NUL |
| ByteImage.StrcmpIsCompare | meta/meta_file_system.cc:183 | strcmp on a stored name agrees with the order that sorted the table |
| SourceTree.PathNameFound | meta/metafs_builder.cc:107-156 | the path under which a node is visited leads back to this node |
| Image.ByteOwner | meta/metafs_builder.cc:53-156 | every byte of the image belongs to the head of exactly one node: nodes, tables and strings tile it |
| Image.HeadsApart | meta/metafs_builder.cc:53-156 | the heads of different nodes do not overlap |
| Image.EncodesFrame | meta/metafs_builder.cc:203-209 | a tree stays encoded when only placement words of files change |
| MetaFSWriter.MetaFSBuilder.ReserveBuffer | meta/metafs_builder.cc:18-26 | room for the requested bytes, and every byte so far is kept when the buffer moves |
| MetaFSWriter.MetaFSBuilder.AddXattrs | meta/metafs_builder.cc:38-51 | the attribute table and strings are in the image behind the old position, all earlier bytes kept |
| MetaFSWriter.MetaFSBuilder.AddFile | meta/metafs_builder.cc:53-62 | the node of a file with its attributes is written at the old position, earlier bytes kept |
| MetaFSWriter.MetaFSBuilder.AddLink | meta/metafs_builder.cc:64-77 | the node of a link with attributes and target is written, earlier bytes kept |
| MetaFSWriter.MetaFSBuilder.AddDir | meta/metafs_builder.cc:79-105 | the node of a directory with attributes, rows and names is written, earlier bytes kept; returns where its rows are |
| MetaFSWriter.MetaFSBuilder.ScanDfs | meta/metafs_builder.cc:107-156 | the whole tree is encoded at the old position, the position advances by its size, no earlier byte changes |
| MetaFSWriter.MetaFSBuilder.SetDirentNodeOffset | meta/metafs_builder.cc:158-160 | the offset word of one row changes and no other byte |
| MetaFSWriter.KidPatched | meta/metafs_builder.cc:147-160 | writing a child and back-patching its position keeps the directory and the children before it |
| WorkQueue.ExpandDir | meta/metafs_builder.cc:211-216 | replacing a waiting directory by its children keeps the walk: none twice, none missed |
| WorkQueue.VisitFile | meta/metafs_builder.cc:199-210 | a waiting file was not visited before, and visiting it keeps the walk |
| WorkQueue.WalkEnd | meta/metafs_builder.cc:194-219 | when the queue is empty every file was visited exactly once |
| WorkQueue.BfsOnce | meta/metafs_builder.cc:194-219 | the order of the breadth-first walk has every file of the tree exactly once |
| WorkQueue.BfsAscends | meta/metafs_builder.cc:194-219 | the walk visits files with shorter paths first, and those of one level in the order of the directories |
| Placement.OpensItem | meta/metafs_builder.cc:203 | the path that comes out of the queue with a node opens the content of this node |
| Placement.NoGap | data/chunk_builder.cc:53-117 | the chunks stored by reserving, streaming, writing the image and flushing are 0 to the last without a gap |
| Placement.RunsOnDisk | meta/metafs_builder.cc:222 | the image, written last, overwrites no byte of a file |
| Placement.FileIsPlaced | meta/metafs_builder.cc:199-210 | a file's node holds its offset and length, behind the image, and its content is there; an unreadable file has length 0 |
| Placement.PlacesApart | meta/metafs_builder.cc:199-210 | different files lie in disjoint places behind the image |
| MetaFSWriter.MetaFSBuilder.PlaceFile | meta/metafs_builder.cc:199-210 | a file's place is stored in its node, offset -1 and length 0 if it cannot be opened; its bytes are appended, and all chunks still fit when compressed exactly if the buffers do that appending these bytes stores |
| MetaFSWriter.MetaFSBuilder.ListKids | meta/metafs_builder.cc:211-216 | the queue receives each child's position and path, read from the rows of the directory |
| MetaFSWriter.MetaFSBuilder.PlaceFiles | meta/metafs_builder.cc:194-220 | the loop terminates with every file placed once, in the order of the breadth-first walk, and all contents on the disk behind each other; all chunks still fit exactly if the buffers of these contents do |
| MetaFSWriter.MetaFSBuilder.CreateChunks | meta/metafs_builder.cc:189-224 | the disk holds the contents behind the image and then the image with all places, and which chunks are stored, as long as chunks fit; an error is returned only if a buffer of the contents does not fit |
| MetaFSWriter.MetaFSBuilder.Build | meta/metafs_builder.cc:226-245 | every chunk fits if and only if the buffers of contents, image and last chunk do; then the disk is packed: whole chunks without a gap, the image at the start, each file where its node says |
| PackedChunks.RoomySuits | data/compressed_store.cc:23-31 | a codec that has room for every chunk has room for the buffers of every tree |
| ImageLookup.FindRowCorrect | meta/meta_file_system.cc:176-196 | the search in a sorted table of up to 2^30 rows finds a name's value, and 0 exactly when the name is absent |
| ImageLookup.SearchHitsRow | meta/meta_file_system.cc:176-196 | whatever a table holds, an offset that is found is the value of one of its rows |
| PathResolution.ChildFound | meta/meta_file_system.cc:166-174 | in a directory without attributes or entries, a child is found exactly when it is there |
| PathResolution.LocateCorrect | meta/meta_file_system.cc:134-164 | a path through such directories leads to the node of the tree, or to nothing |
| PathResolution.LookupExact | meta/meta_file_system.cc:134-174 | lookup is right on every path if and only if no directory has both attributes and entries |
| MetaFSReader.MetaFileSystem.FindEntity | meta/meta_file_system.cc:176-196 | the loop with 32-bit indices returns what the recursive search does, without overflow unless it is undefined |
| MetaFSReader.ScanIsLocate | meta/meta_file_system.cc:134-164 | the character loop follows the components of the path, a trailing slash and empty components included |
| MetaFSReader.MetaFileSystem.GetNodeOffset | meta/meta_file_system.cc:134-164 | what every path resolves to on the bytes of the image: an exception without a leading slash, NOT_FOUND, an offset, or no defined result |
| MetaFSReader.MetaFileSystem.GetOffset | meta/meta_file_system.cc:198-202 | for every path what it resolves to on the bytes of the image; through plain directories the offset of the node the tree has under the path, NOT_FOUND exactly when there is none, an exception without a leading slash |
| MetaFSReader.MetaFileSystem.GetStat | meta/meta_file_system.cc:40-46 | for every path the attributes in the bytes it resolves to; for any node encoded there mode, owner, group, size and blocks are those of the node, the link count is 2 exactly for a directory, and times from 1970 on are its own; through plain directories the node is that of the tree, NOT_FOUND exactly when there is none |
| MetaFSReader.MetaFileSystem.StatOf | meta/meta_file_system.cc:117-131 | what is read at an offset are, field by field, the attributes of the tree that is encoded there |
| MetaFSReader.TimeRoundTrip | meta/metafs_builder.cc:35-36 | a time survives writing and reading if and only if it is not before 1970 |
| MetaFSReader.MetaFileSystem.GetFilePosition | meta/meta_file_system.cc:6-14 | for a regular file of the tree the place that was stored in its node, BAD_TYPE for anything else |
| MetaFSReader.MetaFileSystem.GetSymlink | meta/meta_file_system.cc:24-38 | for every path that leads to a node: what the buffer holds after the target was copied and which error is returned; for a buffer of exactly the given size, or size 0, the write goes outside; through plain directories the node is that of the tree |
| MetaFSReader.LinkDefined | meta/meta_file_system.cc:31-32 | the copy of a link stays inside the buffer if and only if the buffer is longer than the given size, which is not 0 |
| MetaFSReader.LinkTerminated | meta/meta_file_system.cc:31-32 | when the buffer holds the terminated target after the copy, and when not |
| MetaFSReader.MetaFileSystem.GetXattr | meta/meta_file_system.cc:94-115 | for every path that leads to a node: the stored value of the attribute, its length, or the error for a missing name or a small buffer; through plain directories the node is that of the tree |
| MetaFSReader.XattrRoundTrip | meta/metafs_builder.cc:48 | with a large enough buffer a value is fetched as it was written if and only if nothing but NULs follows its first NUL |
| MetaFSReader.MetaFileSystem.ListXattr | meta/meta_file_system.cc:70-92 | for every path that leads to a node: the exact total for size 0; else the names that fit, with the total if all fit or the buffer is exactly full, and TOO_LONG with the length that was too much otherwise |
| MetaFSReader.NamesInList | meta/meta_file_system.cc:79-88 | the names of the attributes are read back from the list one behind the other, each up to its terminator |
| MetaFSReader.MetaFileSystem.GetDir | meta/meta_file_system.cc:48-68 | for every path that leads to a node: the i-th row that is returned has the name and, field by field, the attributes of the i-th entry from the start on, as many as there are and are taken, BAD_TYPE for anything but a directory; through plain directories the node is that of the tree |
| Lru.QueueIsRecency | common/lru_collector.cc:7-22 | after any history the queue is the most recently used ids, most recent first, as many as the size |
| Lru.Inclusion | common/lru_collector.cc:7-22 | a larger collector's queue starts with the queue of a smaller one |
| Lru.UpdateKeeps | common/lru_collector.cc:7-22 | after an update the ids are distinct and within the size, and exactly the victim has left |
| Lru.LruCollector.Update | common/lru_collector.cc:7-22 | the list with its index behaves as the queue of ids, and the remover is called for the id that leaves |
| Lru.LruCollector.Remove | common/lru_collector.cc:24-27 | the index loses the id and the queue does not: valid afterwards exactly when the id was absent |
| Stores.ChunkStore.constructor | data/chunk_store.cc:39-46 | existing chunks are taken over, and the store keeps exactly the last ids visited, as many as it has room for, the last one foremost in the queue; a store that is large enough keeps all |
| Stores.ChunkStore.WriteChunk | data/chunk_store.cc:84-117 | the chunk is stored whole, only the collector's victim is removed, never the chunk itself |
| Stores.ChunkStore.ReadChunk | data/chunk_store.cc:52-82 | the bytes of the chunk however reads are cut, NOT_FOUND exactly when it is absent; a chunk that is read comes first in the queue |
| Stores.ChunkStore.RemoveChunk | data/chunk_store.cc:119-133 | the chunk is gone, all others stay |
| Stores.ChunkStore.Bounded | data/chunk_store.cc:84-133 | a store never holds more chunks than its size |
| Stores.RunStore | data/chunk_store.cc:52-137 | over any run the ids in the store are those on disk, at most the size, and each chunk is the last one written |
| Stores.PackedReadable | data/compressed_store.cc:6-33 | a chunk that was written is readable if and only if its compressed form fitted |
| Stores.CompressedStore.ReadChunk | data/compressed_store.cc:6-21 | the decompressed chunk, NOT_FOUND or a decompression error; a stored chunk comes first in the queue, whether it can be decompressed or not |
| Stores.CompressedStore.WriteChunk | data/compressed_store.cc:23-33 | the compressed chunk is stored under the id |
| FlatDisk.ChunkBuilder.Flush | data/chunk_builder.cc:92-98 | the buffer is stored as its chunk; all chunks fit so far exactly when they did before and this one does |
| FlatDisk.ChunkBuilder.MovePos | data/chunk_builder.cc:100-117 | leaving a chunk stores it, coming back loads it, and no written byte changes its value; all chunks still fit exactly if the buffer that is left does |
| FlatDisk.ChunkBuilder.WriteData | data/chunk_builder.cc:66-79 | the bytes are on the flat disk at the position, which advances, and passed chunks are stored; all chunks still fit exactly if the buffers do that writing byte after byte stores |
| FlatDisk.ChunkBuilder.Write | data/chunk_builder.cc:58-64 | the bytes are on the flat disk at the offset, all other written bytes as before; all chunks still fit exactly if the buffers stored on the way do |
| FlatDisk.ChunkBuilder.Reserve | data/chunk_builder.cc:53-56 | the position advances and nothing written changes; all chunks still fit exactly if the buffer that is left does |
| FlatDisk.ChunkBuilder.AddFile | data/chunk_builder.cc:12-51 | the content of a file is appended however reads are cut, errors for a file that cannot be opened; all chunks still fit exactly if the buffers of this content do |
| FlatDisk.ChunkBuilder.Build | data/chunk_builder.cc:92-98 | every written byte is in its chunk of the store, and all chunks are whole, as long as all chunks fit, the last one included |
| FlatDisk.SwitchChunk | data/chunk_builder.cc:100-113 | storing the buffer and going on with any other chunk, new or stored before, keeps every written byte |
| FlatDisk.PutRunBytes | data/chunk_builder.cc:66-79 | what a run of bytes changes on the flat disk: its own offsets and no others |
| FlatDisk.PutInChunk | data/chunk_builder.cc:66-79 | copying a part of the data into the buffer at once does what writing it byte after byte does |
| FlatDisk.Incompressible | data/compressed_store.cc:23-33 | for any chunk that does not fit when compressed, a disk that starts with it is built without an error and the chunk cannot be read |
| FlatDisk.PerformAll | data/chunk_builder.cc:12-117 | after any sequence of reserve, write and add_file: every chunk fits if and only if the buffers do that the sequence stores, and then every byte ever written has its latest value in whole chunks |
| Download.GetChunk | network/distfs_service.cc:9-37 | the pieces put together are the chunk, or a start of it when the transfer is cancelled |
| Download.PatienceLasts | network/distfs_service.cc:24-33 | the transfer is complete exactly when the chunk has at most 419840 bytes for each piece that is taken |
| Download.FetchChunk | network/connection_pool.cc:34-66 | the first reply with the listed hash is stored, without one nothing changes; defined if and only if the reply that ends the fetch fits into the buffer and is for a listed chunk |
| Download.FetchFrom | network/distfs_service.cc:24-33 | one node fetching from another gets the chunk exactly when the other has it and the transfer is not cut off, and then the same bytes; what both queues and stores hold afterwards |
| Download.HashStore | network/distfs_metadata.cc:29-51 | the hash of every chunk by id; fails if and only if the ids are not 0 to n-1 |
| FlatReader.FetchedAgrees | network/connection_pool.cc:54-62 | a chunk admitted by its hash is the published one |
| FlatReader.ChunkProvider.ReadChunk | data/chunk_provider.cc:6-65 | a read succeeds if and only if it lies in the chunk and the chunk is cached, stored or sent by a peer, and then returns the slice of the decompressed chunk; then the chunk is cached and first in the queue, only the collector's victim has left, and the same holds for the store unless the chunk was cached; a read that fails changes neither; defined if and only if no peer must be asked or no fatal reply ends the fetch |
| FlatReader.ChunkProvider.Load | data/chunk_provider.cc:42-49 | the decompressed chunk, exactly when it is stored or a peer sends it; then it is stored and first in the queue, and only the collector's victim has left; defined if and only if it is stored or no fatal reply ends the fetch |
| FlatReader.RunReads | data/chunk_provider.cc:6-65 | over any run of reads the cache holds exactly the chunks that were last read with success, as many as it has room for, and such a chunk can be read again whatever the store has and peers answer |
| FlatReader.ChunkProvider.CacheBounded | data/chunk_provider.cc:67-80 | between reads the cache holds at most as many chunks as its size |
| FlatReader.DataProvider.Read | data/data_provider.cc:5-28 | a successful read returns exactly the range, which then lies on the disk, as long as chunk ids fit into 32 bits; it is defined unless peers send fatal replies, and succeeds when all chunks can be had |
| DistFS.Mount | meta/meta_file_system.cc:207-221 | the mounted data are the image of the packed tree; defined unless peers send fatal replies, and it succeeds when all chunks can be had |
| DistFS.ClampExact | fuse/fuse_main.cc:104 | the number of bytes asked for is right if and only if the read starts inside the file or is empty |
| DistFS.ReadFile | fuse/fuse_main.cc:97-109 | a read of an open file that succeeds returns the slice of the original content if and only if it starts inside the file or is empty; defined unless peers send fatal replies |
| DistFS.ReadDir | fuse/fuse_main.cc:37-51 | for every path that leads to a node: the entries from an offset on with their own names and attributes, and the offset to resume at |
| DistFS.ListDirectory | fuse/fuse_main.cc:37-51 | for every path that leads to a node: pages of any sizes list every entry exactly once and in order, with its own name and attributes |
| EndToEnd.Pack | meta/metafs_builder.cc:226-245 | every chunk of a packed tree fits when compressed if and only if the buffers of its contents and image do, and then the disk holds the tree |
| EndToEnd.PackAndRead | fuse/fuse_main.cc:97-109 | pack a tree with a codec that has room for its buffers, mount it on an empty node, and ask for slices of files, attributes, links, extended attributes and directory pages: every answer is that of the tree, whatever peers send up to a reply longer than a chunk, and nothing fails when every chunk is offered |
| EndToEnd.PackedContiguous | network/distfs_metadata.cc:33-43 | a packed store has the ids that the list of hashes needs |
| ConcurrentCache.StepInv | data/chunk_provider.cc:6-70 | every step of every thread keeps the invariant of entries, threads and mutual exclusion |
| ConcurrentCache.EveryReadRight | data/chunk_provider.cc:6-65 | in every interleaving, with loads that fail or overlap and chunks that leave the store, a read that ends has the request that its thread began last and succeeds if and only if its own load did not fail; a successful read has its slice of its chunk unless its own load got something else; entries outside the queue belong to requests in flight or to an eviction; entries are at most the cache size plus the requests in flight |
| ConcurrentCache.AllReadsRight | data/chunk_provider.cc:6-65 | in every interleaving in which no read of a file yields anything but its chunk, every read ends with its slice unless its own load failed, overlapping loads included |
| ConcurrentCache.AllReadsSucceed | data/chunk_provider.cc:6-65 | and when no load fails, every read ends with its slice |
| ConcurrentCache.StepsEnd | data/chunk_provider.cc:6-65 | each step brings a read nearer to its end, whatever other threads do: it has at most 18 after the first |
| ConcurrentCache.StoredReadsRight | data/chunk_provider.cc:42-49 | every read of a chunk that is in the store and stays there ends with its slice unless its own load failed, whatever else is garbled |
| ConcurrentCache.LoadsOverlap | data/chunk_provider.cc:29-49 | for any chunk that is not in the store a failed load leads to two threads that write its file at the same time |
| ConcurrentCache.WrongRead | data/chunk_store.cc:93-104 | and from there a read can succeed with any other bytes |
| ConcurrentCache.QuietReadsRight | data/chunk_provider.cc:6-65 | when no load fails and the cache has room for every chunk, no read meets a write of its file and every read ends with its slice |
| ConcurrentCache.DataStay | data/chunk_provider.cc:28-33 | data of an entry never change once they are there, so that copying after the unlock is safe |
| ConcurrentCache.CacheBound | data/chunk_provider.cc:67-80 | when all entries are accounted for, they are at most the cache size plus the requests in flight |
| ConcurrentCache.QueueIsRecent | data/chunk_provider.cc:33-57 | whenever no eviction is under way, the queue is that of a collector after the updates of all threads, the most recently used ids |
| ConcurrentCache.WaitsDown | data/chunk_provider.cc:13-63 | waiting goes from entries and collector to the map and never back: no circle |
| ConcurrentCache.NoDeadlock | data/chunk_provider.cc:13-63 | while some thread is inside a read, some thread can go on or finds that its chunk left the store |
| Availability.Bitmask | network/chunk_availability.cc:24-35 | the loop builds the bit string of the set in the length the code computes |
| Availability.Decode | network/chunk_availability.cc:9-18 | an id is in the set exactly when its bit is set |
| Availability.BitmaskRoundTrip | network/chunk_availability.cc:9-35 | the set comes back if and only if it is empty or its largest id is not a multiple of 8; else only this id is lost |
| Availability.IntendedRoundTrip | network/chunk_availability.cc:24-35 | with a length of max/8 + 1 every set comes back |
| Availability.MaskRoundTrip | network/chunk_availability.cc:9-35 | decoding and encoding again changes only zeros at the end, if and only if the largest id is not a multiple of 8 |
| PeerPool.OrderedSet.Push | common/ordered_set.cc:3-13 | a new element goes to the end and the oldest leave a full queue; a known one changes nothing |
| PeerPool.OrderedSet.Pop | common/ordered_set.cc:15-21 | the oldest element leaves |
| PeerPool.SortKeeps | network/connection_pool.cc:117 | sorting keeps the connections, orders them by count and keeps urls unique |
| PeerPool.SortStable | network/connection_pool.cc:117 | connections with as many chunks keep their order |
| PeerPool.ConnectionPool.constructor | network/connection_pool.cc:9-23 | a pool starts consistent, with the bootstrap peer if there is one |
| PeerPool.ConnectionPool.GetInfo | network/connection_pool.cc:85-118 | exactly the peers that were heard of lately or answer stay, those that were asked with the chunks and the time of their answer, the others unchanged; sorted, urls stay the active peers |
| PeerPool.ConnectionPool.GetPex | network/connection_pool.cc:120-161 | exactly the peers asked lately or answering stay, and nothing but the time of the exchange changes; candidates were there or are named by a peer that was asked, and with room for all no candidate and no named peer that was not active is missing; candidates and active peers are those of the pass in order |
| PeerPool.SuggestedMembers | network/connection_pool.cc:142-146 | with room for all, exactly the named peers that are not active join the candidates |
| PeerPool.ConnectionPool.Expand | network/connection_pool.cc:163-208 | the pool keeps its connections and gains exactly those to the candidates tried that answer for its file system, with the node and the chunks they tell; tries end after five, or without candidates or room, and the limit is kept |
| PeerPool.ConnectionPool.Explore | network/connection_pool.cc:210-275 | each connection was there or is one to a candidate among the first ten that answers for the pool's file system with more chunks than the poorest peer had; the last such candidate is connected, without one nothing changes; as many connections as before, and exactly when the code is undefined |
| PeerPool.SwapWho | network/connection_pool.cc:243-271 | one candidate that is tried takes the place of the poorest peer if and only if it answers for the file system and has more chunks than the least count |
| PeerPool.ConnectionPool.InfoFromPeer | network/connection_pool.cc:289-297 | an unknown peer becomes a candidate |
| PeerPool.ConnectionPool.InfoFromNode | network/connection_pool.cc:298-312 | the first connection to the node is updated and the list sorted |
| PeerPool.ConnectionPool.PexFrom | network/connection_pool.h:75-94 | named peers that are not active become candidates in order, the asking node is told exactly the urls of connections to other nodes, and only the connections to itself are stamped |
| PeerPool.ConnectionPool.ConnectionForBlock | network/connection_pool.cc:68-83 | a connection that has the chunk, none exactly when there is none |
| PeerPool.RunPool | network/connection_pool.cc:85-313 | over any run the pool stays consistent, sorted and within its limit, and holds what the actions lead to one after the other; every peer connected at the end was so at first or answered for the pool's file system during the run; defined to the end if and only if no exploration has a peer worth connecting and none to replace |
| Network.Run | network/connection_pool.cc:34-66 | over any run with arbitrary replies the stores and queues are those that the actions lead to, every stored chunk has its listed hash and nodes agree on every chunk; defined to the end if and only if no fetch is ended by a reply that is too long or for an unlisted chunk |

## Left out

- System calls, the start-up scan of a store and directory creation: the disk is a map from id to bytes, `open` gives the bytes of a file or an error, and reads and writes do not fail once a file is open.
- A change of the source tree during a build, unsupported file types, and the order in which `readdir` returns names: the tree is a value whose entries are already sorted.
- LZ4 and SHA-256: an abstract codec that recovers what fitted, and an abstract hash, which is assumed to be free of collisions on chunks where a theorem says so.
- gRPC, deadlines, threads of the peer worker, random choice and clocks: arbitrary replies, choices and time stamps.
- EndToEnd.PackAndRead: reads start inside the file or are empty, and directories on the path satisfy the condition of `LookupExact`; a codec that does not suit the tree is the subject of `Pack`.
- FlatReader.DataProvider.Read: which replies make a read undefined is exact for each chunk (`ReadChunk`), not for the range, because which chunks are still stored when the read comes to them depends on what the store drops meanwhile.
- MetaFSReader.MetaFileSystem.GetXattr: a path through a directory with both attributes and entries may lead to an offset at which no node lies; what the bytes there yield is not stated. The same holds for `GetSymlink`, `ListXattr`, `GetDir`, `ReadDir` and `ListDirectory`.
- FlatDisk.ChunkBuilder.Reserve: offsets of the flat disk stay below 2^31 chunks, the default size of a store, so that no chunk is evicted during a build.
- Download.FetchChunk: the retry loop ends when the list of replies ends, so that nothing is said about a loop that goes on forever.
- FlatReader.ChunkProvider.ReadChunk: states reads of one reader after another; concurrent readers are the subject of ConcurrentCache.
- ConcurrentCache.EveryReadRight: reading a file into an entry is one step that yields the chunk, as the sequential model proves, or fails, or yields anything at all if another thread writes the file meanwhile; the single reads and writes of the file are not modelled. Requests lie inside their chunk.
- PeerPool.RunPool: each worker step and each half of `info_from` is one atomic action; the requests that `worker_get_pex` sends, the loop check that only logs, and the access of `pex_from` to connections without a lock are not modelled.
- PeerPool.OrderedSet.Push: the queue holds elements instead of hash-table iterators, whose validity after a rehash is not modelled.
- Availability.Decode: chunk ids are unbounded; a bit string of 2^29 bytes, where 32-bit ids would wrap, is not distinguished.
- `InfoExchange` checks of the file-system id, `GetMetadata`, the bootstrap client and the server: they pass values on.
- The destructor of the chunk builder, which removes all chunks of a build that was not finished.
- The file-system id as a product over hash characters: nothing is claimed about it.
- Command line, FUSE registration, `distfs_open`'s check of access flags, debug output and build files.

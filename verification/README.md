# memfs in Dafny

A model of the core of memfs, an in-memory FUSE filesystem written in C++.
The filesystem is a tree of `MemNode`s. Each node holds a byte store, a map
from child names to child nodes, its own name and a `struct stat`. A
`MemIdx` owns the root and an inode counter.

The model has six modules:

- `Wrappers` defines `Option`.
- `PathSplit` models `split` from index.cc. It covers any delimiter, with the
  scanning loop written out and the `std::string::find` it relies on.
- `Memfs` models the node layout from memfs.h, `MemNode::emplace` and
  `MemIdx::alloc_ino`.
- `MemIndex` models the `MemIdx` constructor, `get_node`, `node` and
  `status` from index.cc. `Lookup` stands for both `get_node` and `node`.
- `ByteStore` models `read` and `write` on a node's store from fs.cc.
- `FuseOps` models the return codes of `getattr`, `open`, `readdir` and
  `mknod` from fs.cc, and `read` and `write` through an open handle.

Every operation works on immutable values. `Node` and `Index` are
datatypes, a node's children are a `map<string, Node>`, so no two children
share a name, and stores are `seq<bv8>`. Environment values are parameters:
`getuid`, `getgid` and the three `time` calls of the constructor. The FUSE
filler of `readdir` is an `accept` predicate, and `mknode`'s result is a
`Created` value.

As written, `split` returns `[s]` for an empty delimiter, so `split("", "")`
is `[""]`. The rule that no piece is empty therefore holds only for a
non-empty delimiter. `SplitShape` states both halves. `write` grows the store
whenever `offset + size >= store.size()`. When the two are equal the resize
changes nothing, and the model keeps that condition.

## Model

| member | source | states |
|---|---|---|
| PathSplit.SplitScan | index.cc:8-35 | The scanning loop returns the same pieces as the recursive definition `Split`, for every string and every delimiter. |
| PathSplit.FindSpec | index.cc:18-27 | `find(delimiter, start)` gives an occurrence of the delimiter at or after `start`, and no occurrence lies between `start` and it. When there is none, none exists at or after `start`. |
| PathSplit.SplitShape | index.cc:12-32 | An empty delimiter gives exactly `[s]`. Otherwise every piece is non-empty and contains no occurrence of the delimiter. |
| PathSplit.SplitSegments | index.cc:17-32 | Splitting on "/" yields only non-empty pieces without '/'. |
| PathSplit.SplitSlashFree | index.cc:30-32 | A string without '/' splits to itself, or to nothing when it is empty. |
| PathSplit.SplitConcat | index.cc:17-32 | Splitting `a + "/" + b` gives the pieces of `a` followed by the pieces of `b`. |
| PathSplit.SplitTrailingSlash | index.cc:22-24 | Adding a trailing '/' does not change the pieces. |
| PathSplit.SplitDoubledSlash | index.cc:22-24 | "//" splits like "/" at any position. |
| PathSplit.SplitAllSlashes | index.cc:17-32 | "", "/", "//" and every other all-slash string split to the empty list. |
| PathSplit.SplitJoin | index.cc:17-32 | Splitting the canonical path "/s1/s2/..." of any list of segments gives that list back. |
| PathSplit.SplitFlatten | index.cc:17-32 | The pieces concatenated in order equal the string with every '/' removed. |
| Memfs.Emplace | memfs.h:28-32 | The name maps to the returned child afterwards, and the key set gains exactly that name. Old entries are kept. A new name stores the given child. An existing name leaves the node unchanged and returns the child already there. |
| Memfs.EmplaceTwice | memfs.h:30-31 | A second emplace under the same name changes nothing and returns the first child. |
| Memfs.EmplaceCommutes | memfs.h:30 | Emplacing two different names gives the same node in either order. |
| Memfs.AllocIno | memfs.h:59 | Returns the counter's current value and advances the counter by exactly one. The tree is untouched. |
| Memfs.AllocManyIncreasing | memfs.h:63 | `k` successive allocations hand out `next, next+1, ...`, strictly increasing, and advance the counter by `k`. |
| MemIndex.NewIndex | index.cc:39-55 | The root is named "/" and its mode is exactly `S_IFDIR`, `S_IREAD`, `S_IWRITE` and `S_IEXEC` or-ed together and no other bit, a directory with owner read, write and execute. It has two links, size 4096 and inode 1, which is the counter's first value. The counter then stands at 2. The root has no children and an empty store, and carries the given owner and timestamps. |
| MemIndex.GetNode | index.cc:57-69 | The loop returns what walking the split path from the root gives. It returns nothing exactly when some segment is not a child of the node reached before it. Otherwise there is a chain of children from the root to the returned node. |
| MemIndex.WalkChain | index.cc:61-68 | Walking reaches a node exactly when a chain of children, one per segment, leads from the start to that node. |
| MemIndex.WalkFails | index.cc:62-65 | Walking fails exactly when some segment is missing from the children of the node reached so far. |
| MemIndex.Status | index.cc:71-77 | Gives a value exactly when the path resolves, and that value is the resolved node's attributes. |
| MemIndex.LookupAllSlashes | index.cc:58-68 | An all-slash path, including "", resolves to the root. |
| MemIndex.LookupTrailingSlash | index.cc:58 | A trailing '/' does not change what a path resolves to. |
| MemIndex.LookupDoubledSlash | index.cc:58 | A doubled '/' resolves like a single one. |
| MemIndex.LookupExample | index.cc:58-68 | "/a//b/" and "/a/b" resolve to the same node, for any names a and b. |
| MemIndex.LookupJoin | index.cc:58-68 | The canonical path of a list of segments resolves by walking exactly those segments. |
| MemIndex.LookupCanonical | index.cc:58-68 | Every path resolves like the canonical path of its segments. |
| MemIndex.NewIndexLookup | index.cc:39-77 | In a fresh index a path resolves exactly when it has no segments, and its status is then the root's. |
| MemIndex.NewIndexInodesBelow | index.cc:46 | After construction every inode in the tree is below the counter. |
| MemIndex.AllocManyFresh | memfs.h:59-63 | While every inode in the tree is below the counter, allocations keep it so and never hand out an inode number already in the tree. |
| ByteStore.Resize | fs.cc:105-107 | `vector::resize`: the new length, old bytes kept below it, zero bytes beyond the old end. |
| ByteStore.Read | fs.cc:76-92 | Reads nothing at or past the end of the store. Otherwise it returns `min(len - offset, size)`. The buffer's front holds exactly the store bytes from `offset`, and the rest of the buffer is untouched. |
| ByteStore.Write | fs.cc:94-113 | The new length is `max(len, offset + size)`, and the written range holds `buf`. Old bytes outside it are kept, and the gap between the old end and `offset` is zero. `st_size` equals the new length, the return value is `size`, and nothing else in the node changes. |
| ByteStore.WriteThenRead | fs.cc:76-113 | Reading `size` bytes at the offset just written returns all of `buf`. |
| ByteStore.WriteGapReadsZero | fs.cc:105-109 | A write past the end leaves zero bytes between the old end and the write, and they read back as zeros. |
| ByteStore.ReadUnaffectedByWrite | fs.cc:109 | Reading old bytes outside the written range gives the same result as before the write. |
| ByteStore.WriteOverwrites | fs.cc:94-113 | A write at the same offset that is at least as long completely replaces an earlier one. |
| FuseOps.Getattr | fs.cc:18-27 | Returns 0 exactly when the path resolves, and the buffer then holds the node's attributes. Otherwise it returns -ENOENT and leaves the buffer alone. |
| FuseOps.Open | fs.cc:29-40 | Returns 0 with a handle on the resolved node, or -ENOENT with no handle. |
| FuseOps.GetattrAgreesWithOpen | fs.cc:18-40 | `getattr` and `open` succeed on the same paths. `getattr` reports the attributes of the node that `open` hands out. |
| FuseOps.Readdir | fs.cc:42-64 | Returns -ENOENT with nothing offered exactly when the path does not resolve. Otherwise it offers ".", then "..", then distinct child names, and each offered name was accepted except a last, refused one. It returns -ENOMEM exactly at that refusal. On 0 every child name has been offered. |
| FuseOps.Enumerate | fs.cc:57-61 | Lists every key of a children map once and nothing else: a name is listed exactly when it is a key, and no name appears twice. |
| FuseOps.Mknod | fs.cc:66-74 | A created node gives 0. An error number `e` gives `-e`, so 0 means success or an error number of 0, and a positive error number gives a negative result. |
| MemIndex.WalkReplace | memfs.h:42-45 | A handle shares its node with the tree: after the node a path resolves to is replaced, the path resolves to the replacement. |
| FuseOps.ReadAt | fs.cc:76-92 | `read` through the handle `open(path)` returned, on the store of the node `path` resolves to. The count is 0 when `offset` is at or past the store's end, otherwise `min(len - offset, size)`. The buffer's front holds exactly the store bytes from `offset`, and the rest of the buffer is unchanged. |
| FuseOps.WriteAt | fs.cc:94-113 | `write` through a handle returns `size` and leaves the inode counter alone. Afterwards the path resolves to the written node. Every path that is not the written file or one of its ancestors resolves exactly as before, covering other branches and everything below the file. |
| MemIndex.ReplaceFrame | fs.cc:100-110 | Replacing one node by a node with the same children leaves every path that does not lead to it or to an ancestor resolving as before. |
| MemIndex.ReplaceAncestor | fs.cc:100-110 | Every ancestor of the replaced node still resolves, to the old ancestor with the replacement made below it. |
| FuseOps.WriteAtAncestors | fs.cc:100-110 | After a write through a handle, the directories above the file still resolve, with the same name, attributes, store and child names. |
| FuseOps.GetattrAfterWrite | fs.cc:110 | After a write through a handle, `getattr` on the path succeeds and reports size `max(len, offset + size)`. |
| FuseOps.ReadAfterWrite | fs.cc:76-113 | After a write through a handle, the path still opens, and reading back at the same offset yields exactly the bytes written. |

## Left out

- Locking: the per-node `std::shared_mutex` with its shared and unique guards, and the atomic counter. Every operation is one sequential step, and the counter is a plain natural number.
- FUSE glue: the `fuse_operations` table, `fuse_main`, `internal_data`, and storing the `Fd` pointer in `fi->fh`. A handle is the node that `open` resolved. `read` and `write` through it are stated as acting on the node the path resolves to, because nothing in this code moves or removes nodes.
- Process plumbing: `log`, the log file, `usage`/`exit`, `destroy`, and both `main` functions. These are output and argument checks.
- `getuid`, `getgid` and `time` are parameters of `MemIndex.NewIndex` and are not modelled.
- `MemIdx::mknode`, `MemNode::init`, `MemNode::incre_link`, `~MemIdx` and `log` are declared but not defined in the source. `FuseOps.Mknod` takes `mknode`'s result as an input, and no link-count or creation behaviour is invented.
- Allocation failure is not modelled. In C++ the `resize` in `write` and the `emplace_back` calls in `split` can throw `std::bad_alloc` or `std::length_error`, and an exception leaving a FUSE callback ends the process. Here `ByteStore.Write`, `FuseOps.WriteAt` and `PathSplit.Split` always succeed, whatever the offset or size.
- `inode_map` is never used, so it is not modelled.
- `struct stat` keeps only the fields the core sets. These are inode, mode, link count, owner, size and the three timestamps.
- Signed `off_t` against unsigned `size_t`: offsets and sizes are natural numbers, so a negative offset, an overflow of `offset + size` and the truncation of `read`'s and `write`'s `size_t` result to `int` are not modelled. The same goes for wrap-around of the `size_t` inode counter.
- The `MemIdx` constructor and `get_node` have different signatures in memfs.h and index.cc. One takes a `FILE*` or not, and the other returns `shared_ptr` or `optional` of a raw pointer. Both are modelled as "optional node", with no pointer ownership.
- Paths and child names are C++ byte strings (`std::string`, `const char*`). Here they are Dafny strings, which are sequences of Unicode scalar values, so names that are not valid UTF-8 cannot be represented. Splitting on '/' and comparing names agree with the byte-level versions only for UTF-8 names.
- `readdir` visits the children in an order that `std::unordered_map` chooses. The model picks an arbitrary remaining name at each step, so its contract holds for every order.

/**
 * The node and index records of memfs.h: a node owns its byte store, its
 * children keyed by name, its own name and a `struct stat`; the index owns
 * the root and the inode counter.  Locks are not modelled: every operation
 * is one atomic step.
 */
module Memfs {

  /** The `st_mode` file-type and permission bits used by the file system (Linux values). */
  const S_IFMT: bv32 := 0xF000
  const S_IFDIR: bv32 := 0x4000
  const S_IREAD: bv32 := 0x100
  const S_IWRITE: bv32 := 0x80
  const S_IEXEC: bv32 := 0x40

  /** The mode describes a directory. */
  predicate IsDir(mode: bv32)
  {
    mode & S_IFMT == S_IFDIR
  }

  /** The fields of `struct stat` that the file system sets or reads. */
  datatype Stat = Stat(
    ino: nat,
    mode: bv32,
    nlink: nat,
    uid: nat,
    gid: nat,
    size: nat,
    atime: int,
    mtime: int,
    ctime: int)

  /** A `struct stat` cleared by `memset(.., 0, ..)`. */
  const ZeroStat := Stat(0, 0, 0, 0, 0, 0, 0, 0, 0)

  /** `MemNode`: byte store, children by name, own name, attributes. */
  datatype Node = Node(
    store: seq<bv8>,
    files: map<string, Node>,
    name: string,
    status: Stat)

  /** A node as `std::make_unique<MemNode>()` leaves it before any field is set. */
  const EmptyNode := Node([], map[], "", ZeroStat)

  /** `MemIdx`: the root node and the next inode number to hand out. */
  datatype Index = Index(root: Node, nextIno: nat)

  // ---------------------------------------------------------------------
  // MemNode::emplace
  // ---------------------------------------------------------------------

  /** The node after `files.emplace(key, child)` and the child that `emplace` returns. */
  datatype Emplaced = Emplaced(node: Node, child: Node)

  /**
   * `files.emplace(key, child)`, returning `it->second`: the entry is added
   * only when `key` is absent, and the child stored under `key` afterwards
   * is returned either way.
   */
  function Emplace(n: Node, key: string, child: Node): (r: Emplaced)
    ensures key in r.node.files && r.node.files[key] == r.child
    ensures r.node.files.Keys == n.files.Keys + {key}
    ensures forall k :: k in n.files ==> r.node.files[k] == n.files[k]
    ensures key !in n.files ==> r.child == child && |r.node.files| == |n.files| + 1
    ensures key in n.files ==> r.node == n
    ensures r.node.store == n.store && r.node.name == n.name && r.node.status == n.status
  {
    if key in n.files then Emplaced(n, n.files[key])
    else Emplaced(n.(files := n.files[key := child]), child)
  }

  /** A second `emplace` under the same name changes nothing and returns the first child. */
  lemma EmplaceTwice(n: Node, key: string, first: Node, second: Node)
    ensures var once := Emplace(n, key, first);
            Emplace(once.node, key, second) == once
  {
  }

  /** Emplacing two different names gives the same node in either order. */
  lemma EmplaceCommutes(n: Node, k1: string, c1: Node, k2: string, c2: Node)
    requires k1 != k2
    ensures Emplace(Emplace(n, k1, c1).node, k2, c2).node == Emplace(Emplace(n, k2, c2).node, k1, c1).node
  {
    if k1 !in n.files && k2 !in n.files {
      assert n.files[k1 := c1][k2 := c2] == n.files[k2 := c2][k1 := c1];
    }
  }

  // ---------------------------------------------------------------------
  // MemIdx::alloc_ino
  // ---------------------------------------------------------------------

  /** The index after an allocation and the inode number handed out. */
  datatype Alloc = Alloc(index: Index, ino: nat)

  /** `next_ino.fetch_add(1)`: hand out the current counter value and advance it by one. */
  function AllocIno(idx: Index): (r: Alloc)
    ensures r.ino == idx.nextIno
    ensures r.index.nextIno == r.ino + 1
    ensures r.index.root == idx.root
  {
    Alloc(idx.(nextIno := idx.nextIno + 1), idx.nextIno)
  }

  /** The index after `k` successive allocations and the numbers they handed out, in order. */
  datatype Allocs = Allocs(index: Index, inos: seq<nat>)

  function AllocMany(idx: Index, k: nat): Allocs
    decreases k
  {
    if k == 0 then Allocs(idx, [])
    else
      var a := AllocIno(idx);
      var rest := AllocMany(a.index, k - 1);
      Allocs(rest.index, [a.ino] + rest.inos)
  }

  /**
   * Successive allocations hand out consecutive, strictly increasing numbers
   * starting at the counter, so no number is handed out twice.
   */
  lemma {:induction false} AllocManyIncreasing(idx: Index, k: nat)
    ensures var r := AllocMany(idx, k);
            && |r.inos| == k
            && r.index.nextIno == idx.nextIno + k
            && r.index.root == idx.root
            && (forall i :: 0 <= i < k ==> r.inos[i] == idx.nextIno + i)
            && (forall i, j :: 0 <= i < j < k ==> r.inos[i] < r.inos[j])
    decreases k
  {
    if k > 0 {
      var a := AllocIno(idx);
      AllocManyIncreasing(a.index, k - 1);
    }
  }
}

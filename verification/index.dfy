/**
 * The index of index.cc: building the root, resolving a path by walking the
 * children maps one segment at a time, and taking a snapshot of the
 * resolved node's attributes.  `MemIdx::node` returns exactly what
 * `get_node` returns, so `Lookup` and `GetNode` stand for both.
 */
module MemIndex {
  import opened Wrappers
  import opened PathSplit
  import opened Memfs

  // ---------------------------------------------------------------------
  // MemIdx::MemIdx
  // ---------------------------------------------------------------------

  /** Owner read, write and execute: the permission bits the root is given. */
  const RootPermissions: bv32 := S_IREAD | S_IWRITE | S_IEXEC

  /**
   * The constructor: an empty root node named "/" whose inode number is the
   * first value of a counter that starts at 1.  The owner and the three
   * timestamps come from `getuid`, `getgid` and `time`, passed in here.
   */
  function NewIndex(uid: nat, gid: nat, atime: int, mtime: int, ctime: int): (idx: Index)
    ensures idx.root.name == "/"
    // a directory whose permission bits are exactly RootPermissions
    ensures idx.root.status.mode == S_IFDIR | RootPermissions
    ensures idx.root.status.nlink == 2 && idx.root.status.size == 4096
    ensures idx.root.status.ino == 1 && idx.nextIno == 2
    ensures idx.root.status.uid == uid && idx.root.status.gid == gid
    ensures idx.root.status.atime == atime && idx.root.status.mtime == mtime && idx.root.status.ctime == ctime
    ensures idx.root.files == map[] && idx.root.store == []
  {
    var a := AllocIno(Index(EmptyNode, 1));
    var st := ZeroStat.(
      ino := a.ino,
      mode := S_IFDIR | RootPermissions,
      uid := uid,
      gid := gid,
      size := 4096,
      nlink := 2,
      atime := atime,
      mtime := mtime,
      ctime := ctime);
    Index(a.index.root.(name := "/", status := st), a.index.nextIno)
  }

  // ---------------------------------------------------------------------
  // Walking the tree
  // ---------------------------------------------------------------------

  /** Follow `parts` from `n` through the children maps; `None` at the first missing name. */
  function Walk(n: Node, parts: seq<string>): Option<Node>
    decreases |parts|
  {
    if parts == [] then Some(n)
    else if parts[0] in n.files then Walk(n.files[parts[0]], parts[1..])
    else None
  }

  /** `c` lists the nodes visited when following `parts` from `n`, one child per segment. */
  ghost predicate IsChain(n: Node, parts: seq<string>, c: seq<Node>)
  {
    && |c| == |parts| + 1
    && c[0] == n
    && forall i :: 0 <= i < |parts| ==> parts[i] in c[i].files && c[i].files[parts[i]] == c[i + 1]
  }

  /** Segment `i` is the first one whose name is not a child of the node reached so far. */
  predicate Blocked(n: Node, parts: seq<string>, i: nat)
    requires i < |parts|
  {
    match Walk(n, parts[..i])
    case None => false
    case Some(m) => parts[i] !in m.files
  }

  /** `Walk` reaches `m` exactly when there is a chain of children from `n` to `m`. */
  lemma {:induction false} WalkChain(n: Node, parts: seq<string>, m: Node)
    ensures Walk(n, parts) == Some(m) <==> exists c :: IsChain(n, parts, c) && c[|parts|] == m
    decreases |parts|
  {
    if parts == [] {
      if Walk(n, parts) == Some(m) {
        assert IsChain(n, parts, [n]);
      }
    } else if parts[0] in n.files {
      var child := n.files[parts[0]];
      WalkChain(child, parts[1..], m);
      if Walk(n, parts) == Some(m) {
        var c' :| IsChain(child, parts[1..], c') && c'[|parts| - 1] == m;
        var c := [n] + c';
        forall i | 0 <= i < |parts|
          ensures parts[i] in c[i].files && c[i].files[parts[i]] == c[i + 1]
        {
          if i > 0 {
            assert parts[i] == parts[1..][i - 1];
          }
        }
        assert IsChain(n, parts, c);
      }
      if exists c :: IsChain(n, parts, c) && c[|parts|] == m {
        var c: seq<Node> :| IsChain(n, parts, c) && c[|parts|] == m;
        forall i | 0 <= i < |parts| - 1
          ensures parts[1..][i] in c[1..][i].files && c[1..][i].files[parts[1..][i]] == c[1..][i + 1]
        {
          assert parts[1..][i] == parts[i + 1];
        }
        assert IsChain(child, parts[1..], c[1..]);
      }
    }
  }

  /** Walking a prefix of `parts` below a first step that exists. */
  lemma WalkPrefixStep(n: Node, parts: seq<string>, i: nat)
    requires 1 <= i <= |parts| && parts[0] in n.files
    ensures Walk(n, parts[..i]) == Walk(n.files[parts[0]], parts[1..][..i - 1])
  {
    assert parts[..i][0] == parts[0];
    assert parts[..i][1..] == parts[1..][..i - 1];
  }

  /** `Walk` fails exactly when some segment is not a child of the node reached before it. */
  lemma {:induction false} WalkFails(n: Node, parts: seq<string>)
    ensures Walk(n, parts).None? <==> exists i: nat :: i < |parts| && Blocked(n, parts, i)
    decreases |parts|
  {
    if parts == [] {
    } else if parts[0] !in n.files {
      assert parts[..0] == [];
      assert Blocked(n, parts, 0);
    } else {
      var child := n.files[parts[0]];
      var rest := parts[1..];
      WalkFails(child, rest);
      assert !Blocked(n, parts, 0) by {
        assert parts[..0] == [];
      }
      forall i: nat | 1 <= i < |parts|
        ensures Blocked(n, parts, i) == Blocked(child, rest, i - 1)
      {
        WalkPrefixStep(n, parts, i);
        assert parts[i] == rest[i - 1];
      }
      if Walk(n, parts).None? {
        var j: nat :| j < |rest| && Blocked(child, rest, j);
        assert Blocked(n, parts, j + 1);
      }
      if exists i: nat :: i < |parts| && Blocked(n, parts, i) {
        var i: nat :| i < |parts| && Blocked(n, parts, i);
        assert Blocked(child, rest, i - 1);
      }
    }
  }

  // ---------------------------------------------------------------------
  // Replacing the node at the end of a path
  // ---------------------------------------------------------------------

  /** The tree with the node at the end of `parts` replaced by `m`; unchanged when `parts` does not resolve. */
  function Replace(n: Node, parts: seq<string>, m: Node): (r: Node)
    ensures parts != [] ==>
              && r.files.Keys == n.files.Keys
              && r.store == n.store && r.name == n.name && r.status == n.status
    decreases |parts|
  {
    if parts == [] then m
    else if parts[0] in n.files then n.(files := n.files[parts[0] := Replace(n.files[parts[0]], parts[1..], m)])
    else n
  }

  /** After replacing the node `parts` resolves to, `parts` resolves to the replacement. */
  lemma {:induction false} WalkReplace(n: Node, parts: seq<string>, m: Node)
    requires Walk(n, parts).Some?
    ensures Walk(Replace(n, parts, m), parts) == Some(m)
    decreases |parts|
  {
    if parts != [] {
      WalkReplace(n.files[parts[0]], parts[1..], m);
    }
  }

  /** `q` is `p` or an initial part of it: the path of `p`'s node or of one of its ancestors. */
  predicate IsPrefix(q: seq<string>, p: seq<string>)
  {
    |q| <= |p| && q == p[..|q|]
  }

  /**
   * Replacing a node by one with the same children changes nothing along any
   * path that does not lead to it or to one of its ancestors: other
   * branches, and everything below the node itself, resolve as before.
   */
  lemma {:induction false} ReplaceFrame(n: Node, parts: seq<string>, m: Node, q: seq<string>)
    requires Walk(n, parts).Some? && m.files == Walk(n, parts).value.files
    requires !IsPrefix(q, parts)
    ensures Walk(Replace(n, parts, m), q) == Walk(n, q)
    decreases |parts|
  {
    if parts != [] && q[0] == parts[0] {
      ReplaceFrame(n.files[parts[0]], parts[1..], m, q[1..]);
    }
  }

  /** `ReplaceFrame` for every path at once. */
  lemma ReplaceFrameAll(n: Node, parts: seq<string>, m: Node)
    requires Walk(n, parts).Some? && m.files == Walk(n, parts).value.files
    ensures forall q :: !IsPrefix(q, parts) ==> Walk(Replace(n, parts, m), q) == Walk(n, q)
  {
    forall q | !IsPrefix(q, parts)
      ensures Walk(Replace(n, parts, m), q) == Walk(n, q)
    {
      ReplaceFrame(n, parts, m, q);
    }
  }

  /**
   * An ancestor at `parts[..j]` still resolves, to the old ancestor with the
   * replacement made below it.
   */
  lemma {:induction false} ReplaceAncestor(n: Node, parts: seq<string>, m: Node, j: nat)
    requires Walk(n, parts).Some? && j <= |parts|
    ensures Walk(n, parts[..j]).Some?
    ensures Walk(Replace(n, parts, m), parts[..j]) == Some(Replace(Walk(n, parts[..j]).value, parts[j..], m))
    decreases j
  {
    if j == 0 {
      assert parts[..0] == [] && parts[0..] == parts;
    } else {
      var c, tail, up := n.files[parts[0]], parts[1..], parts[..j];
      ReplaceAncestor(c, tail, m, j - 1);
      assert up[0] == parts[0] && up[1..] == tail[..j - 1];
      assert tail[j - 1..] == parts[j..];
      var r := Replace(n, parts, m);
      assert r.files[parts[0]] == Replace(c, tail, m);
      assert Walk(n, up) == Walk(c, tail[..j - 1]);
      assert Walk(r, up) == Walk(Replace(c, tail, m), tail[..j - 1]);
    }
  }

  // ---------------------------------------------------------------------
  // MemIdx::get_node, MemIdx::node, MemIdx::status
  // ---------------------------------------------------------------------

  /** The node `path` resolves to: split on "/" and walk from the root. */
  function Lookup(idx: Index, path: string): Option<Node>
  {
    Walk(idx.root, Split(path, "/"))
  }

  /**
   * `get_node` as written: split the path, then step through each
   * segment's child, giving up at the first segment that is not a key of
   * the current node's children.
   */
  method GetNode(idx: Index, path: string) returns (r: Option<Node>)
    ensures r == Lookup(idx, path)
    ensures r.None? <==>
              exists i: nat :: i < |Split(path, "/")| && Blocked(idx.root, Split(path, "/"), i)
    ensures r.Some? ==>
              exists c :: IsChain(idx.root, Split(path, "/"), c) && c[|Split(path, "/")|] == r.value
  {
    var parts := SplitScan(path, "/");
    var p := idx.root;
    for i := 0 to |parts|
      invariant Walk(p, parts[i..]) == Walk(idx.root, parts)
    {
      if parts[i] !in p.files {
        WalkFails(idx.root, parts);
        return None;
      }
      assert parts[i..][1..] == parts[i + 1..];
      p := p.files[parts[i]];
    }
    WalkChain(idx.root, parts, p);
    WalkFails(idx.root, parts);
    return Some(p);
  }

  /** `status(path)`: a copy of the resolved node's attributes, or nothing. */
  function Status(idx: Index, path: string): (r: Option<Stat>)
    ensures r.Some? <==> Lookup(idx, path).Some?
    ensures r.Some? ==> r.value == Lookup(idx, path).value.status
  {
    match Lookup(idx, path)
    case None => None
    case Some(n) => Some(n.status)
  }

  // ---------------------------------------------------------------------
  // Resolution properties
  // ---------------------------------------------------------------------

  /** "", "/", "//", ... resolve to the root. */
  lemma LookupAllSlashes(idx: Index, path: string)
    requires forall i :: 0 <= i < |path| ==> path[i] == '/'
    ensures Lookup(idx, path) == Some(idx.root)
  {
    SplitAllSlashes(path);
  }

  /** A trailing '/' does not change what a path resolves to. */
  lemma LookupTrailingSlash(idx: Index, path: string)
    ensures Lookup(idx, path + "/") == Lookup(idx, path)
  {
    SplitTrailingSlash(path);
  }

  /** A doubled '/' resolves like a single one. */
  lemma LookupDoubledSlash(idx: Index, a: string, b: string)
    ensures Lookup(idx, a + "//" + b) == Lookup(idx, a + "/" + b)
  {
    SplitDoubledSlash(a, b);
  }

  /** For instance "/a//b/" and "/a/b" resolve to the same node, whatever the names a and b. */
  lemma LookupExample(idx: Index, a: string, b: string)
    ensures Lookup(idx, "/" + a + "//" + b + "/") == Lookup(idx, "/" + a + "/" + b)
  {
    LookupTrailingSlash(idx, "/" + a + "//" + b);
    LookupDoubledSlash(idx, "/" + a, b);
  }

  /** The canonical path "/s1/s2/..." of a list of segments resolves by walking exactly those segments. */
  lemma LookupJoin(idx: Index, parts: seq<string>)
    requires forall i :: 0 <= i < |parts| ==> IsSegment(parts[i])
    ensures Lookup(idx, Join(parts)) == Walk(idx.root, parts)
  {
    SplitJoin(parts);
  }

  /** Every path resolves like its canonical form. */
  lemma LookupCanonical(idx: Index, path: string)
    ensures Lookup(idx, Join(Split(path, "/"))) == Lookup(idx, path)
  {
    SplitSegments(path);
    SplitJoin(Split(path, "/"));
  }

  /** In a fresh index only the root resolves; its status is the one the constructor set. */
  lemma NewIndexLookup(uid: nat, gid: nat, atime: int, mtime: int, ctime: int, path: string)
    ensures var idx := NewIndex(uid, gid, atime, mtime, ctime);
            && (Lookup(idx, path).Some? <==> Split(path, "/") == [])
            && (Lookup(idx, path).Some? ==> Status(idx, path) == Some(idx.root.status))
  {
  }

  // ---------------------------------------------------------------------
  // Inode numbers
  // ---------------------------------------------------------------------

  /** Every node reachable from the root carries an inode number below the counter. */
  ghost predicate InodesBelow(idx: Index)
  {
    forall parts :: Walk(idx.root, parts).Some? ==> Walk(idx.root, parts).value.status.ino < idx.nextIno
  }

  /** The constructor leaves the counter above the root's inode number. */
  lemma NewIndexInodesBelow(uid: nat, gid: nat, atime: int, mtime: int, ctime: int)
    ensures InodesBelow(NewIndex(uid, gid, atime, mtime, ctime))
  {
  }

  /**
   * Allocations keep the counter above every inode in the tree, and none of
   * the numbers they hand out belongs to a node already in the tree.
   */
  lemma AllocManyFresh(idx: Index, k: nat)
    requires InodesBelow(idx)
    ensures var r := AllocMany(idx, k);
            && InodesBelow(r.index)
            && |r.inos| == k
            && forall i, parts :: 0 <= i < |r.inos| && Walk(idx.root, parts).Some? ==>
                 Walk(idx.root, parts).value.status.ino != r.inos[i]
  {
    AllocManyIncreasing(idx, k);
  }
}

/**
 * The FUSE callbacks of fs.cc, over the path index and the byte store: the
 * return codes of `getattr`, `open`, `readdir` and `mknod`, and `read` and
 * `write` through the handle `open` hands out.  Errors are returned as
 * negated errno values, as FUSE expects.
 */
module FuseOps {
  import opened Wrappers
  import opened Memfs
  import opened PathSplit
  import opened MemIndex
  import opened ByteStore

  /** Linux errno values. */
  const ENOENT: int := 2
  const ENOMEM: int := 12

  // ---------------------------------------------------------------------
  // getattr, open
  // ---------------------------------------------------------------------

  /** What `getattr` returns and the caller's `struct stat` afterwards. */
  datatype Attr = Attr(rc: int, statbuf: Stat)

  /** `getattr(path, statbuf)`: fill in the resolved node's attributes, or fail with ENOENT. */
  function Getattr(idx: Index, path: string, statbuf: Stat): (r: Attr)
    ensures r.rc == 0 || r.rc == -ENOENT
    ensures r.rc == 0 <==> Lookup(idx, path).Some?
    ensures r.rc == 0 ==> r.statbuf == Lookup(idx, path).value.status
    ensures r.rc != 0 ==> r.statbuf == statbuf
  {
    match Status(idx, path)
    case Some(st) => Attr(0, st)
    case None => Attr(-ENOENT, statbuf)
  }

  /** What `open` returns and the node its file handle refers to. */
  datatype Opened = Opened(rc: int, handle: Option<Node>)

  /** `open(path, fi)`: a handle on the resolved node, or ENOENT and no handle. */
  function Open(idx: Index, path: string): (r: Opened)
    ensures r.rc == 0 || r.rc == -ENOENT
    ensures r.rc == 0 <==> r.handle.Some?
    ensures r.handle.Some? <==> Lookup(idx, path).Some?
    ensures r.handle.Some? ==> r.handle.value == Lookup(idx, path).value
  {
    match Lookup(idx, path)
    case None => Opened(-ENOENT, None)
    case Some(n) => Opened(0, Some(n))
  }

  /** `getattr` succeeds exactly where `open` does, and reports the attributes of the node `open` hands out. */
  lemma GetattrAgreesWithOpen(idx: Index, path: string, statbuf: Stat)
    ensures Getattr(idx, path, statbuf).rc == Open(idx, path).rc
    ensures Open(idx, path).handle.Some? ==>
              Getattr(idx, path, statbuf).statbuf == Open(idx, path).handle.value.status
  {
  }

  // ---------------------------------------------------------------------
  // readdir
  // ---------------------------------------------------------------------

  /**
   * `readdir(path, buf, filler, ...)`.  `accept(i, name)` stands for the
   * FUSE filler returning 0 (room left) when offered `name` as the `i`-th
   * entry.  "." and ".." come first, then every child name once, in an order
   * the children map chooses; the first refusal ends the listing with ENOMEM.
   * `offered` is every name handed to the filler, the refused one included.
   */
  method Readdir(idx: Index, path: string, accept: (nat, string) -> bool) returns (rc: int, offered: seq<string>)
    ensures rc == 0 || rc == -ENOENT || rc == -ENOMEM
    ensures rc == -ENOENT <==> Lookup(idx, path).None?
    ensures rc == -ENOENT ==> offered == []
    ensures rc != -ENOENT ==> 1 <= |offered| && offered[0] == "." && (2 <= |offered| ==> offered[1] == "..")
    ensures forall i :: 0 <= i < |offered| - 1 ==> accept(i, offered[i])
    ensures rc == -ENOMEM <==> 0 < |offered| && !accept(|offered| - 1, offered[|offered| - 1])
    ensures Lookup(idx, path).Some? ==>
              forall i :: 2 <= i < |offered| ==> offered[i] in Lookup(idx, path).value.files
    ensures forall i, j :: 2 <= i < j < |offered| ==> offered[i] != offered[j]
    ensures rc == 0 ==> 2 <= |offered| && forall k :: k in Lookup(idx, path).value.files ==> k in offered[2..]
  {
    var found := GetNode(idx, path);
    if found.None? {
      return -ENOENT, [];
    }
    var names := Enumerate(found.value.files.Keys);
    var all := [".", ".."] + names;
    for i := 0 to |all|
      invariant forall j :: 0 <= j < i ==> accept(j, all[j])
    {
      if !accept(i, all[i]) {
        return -ENOMEM, all[..i + 1];
      }
    }
    return 0, all;
  }

  /** The names of `keys`, each once, in an order the set chooses. */
  method Enumerate(keys: set<string>) returns (names: seq<string>)
    ensures forall k :: k in keys <==> k in names
    ensures forall i, j :: 0 <= i < j < |names| ==> names[i] != names[j]
  {
    names := [];
    var left := keys;
    while left != {}
      invariant left <= keys
      invariant forall k :: k in keys <==> k in names || k in left
      invariant forall i :: 0 <= i < |names| ==> names[i] !in left
      invariant forall i, j :: 0 <= i < j < |names| ==> names[i] != names[j]
      decreases left
    {
      var k :| k in left;
      names := names + [k];
      left := left - {k};
    }
  }

  // ---------------------------------------------------------------------
  // mknod
  // ---------------------------------------------------------------------

  /** What `MemIdx::mknode` hands back: an error number or the new node. */
  datatype Created = Failed(code: int) | Made(node: Node)

  /** `mknod`: the negated error number when node creation failed, 0 when it produced a node. */
  function Mknod(created: Created): (rc: int)
    ensures created.Made? ==> rc == 0
    ensures created.Failed? ==> -rc == created.code
    ensures rc == 0 <==> created.Made? || created.code == 0
    ensures created.Failed? && created.code > 0 ==> rc < 0
  {
    match created
    case Failed(code) => -code
    case Made(_) => 0
  }

  // ---------------------------------------------------------------------
  // read and write through a handle
  // ---------------------------------------------------------------------


  /** `read` through the handle `open(path)` returned: `read` on the store of the node `path` resolves to. */
  function ReadAt(idx: Index, path: string, buf: seq<bv8>, offset: nat): (r: ReadResult)
    requires Open(idx, path).rc == 0
    ensures var s := Lookup(idx, path).value.store;
            && |r.buf| == |buf|
            && (offset >= |s| ==> r.count == 0 && r.buf == buf)
            && (offset <= |s| ==> r.count == Min(|s| - offset, |buf|))
            && (offset <= |s| ==> r.buf[..r.count] == s[offset..offset + r.count])
            && r.buf[r.count..] == buf[r.count..]
  {
    Read(Lookup(idx, path).value, buf, offset)
  }

  /** The index after a `write` and the number `write` returns. */
  datatype Written = Written(index: Index, rc: int)

  /**
   * `write` through the handle `open(path)` returned.  The handle shares the
   * node with the tree, so the write is what later lookups of `path` see.
   */
  function WriteAt(idx: Index, path: string, buf: seq<bv8>, offset: nat): (r: Written)
    requires Open(idx, path).rc == 0
    ensures r.rc == |buf|
    ensures r.index.nextIno == idx.nextIno
    ensures Lookup(r.index, path) == Some(Write(Lookup(idx, path).value, buf, offset).node)
    ensures forall other :: !IsPrefix(Split(other, "/"), Split(path, "/")) ==>
              Lookup(r.index, other) == Lookup(idx, other)
  {
    var w := Write(Lookup(idx, path).value, buf, offset);
    var parts := Split(path, "/");
    WalkReplace(idx.root, parts, w.node);
    ReplaceFrameAll(idx.root, parts, w.node);
    Written(Index(Replace(idx.root, parts, w.node), idx.nextIno), w.count)
  }

  /** After a write through a handle, `getattr` on the same path reports the grown size. */
  lemma GetattrAfterWrite(idx: Index, path: string, buf: seq<bv8>, offset: nat, statbuf: Stat)
    requires Open(idx, path).rc == 0
    ensures var a := Getattr(WriteAt(idx, path, buf, offset).index, path, statbuf);
            && a.rc == 0
            && a.statbuf.size == Max(|Lookup(idx, path).value.store|, offset + |buf|)
  {
  }

  /** Reading back through a handle on the same path yields exactly the bytes written. */
  lemma ReadAfterWrite(idx: Index, path: string, buf: seq<bv8>, offset: nat, out: seq<bv8>)
    requires Open(idx, path).rc == 0 && |out| == |buf|
    ensures var w := WriteAt(idx, path, buf, offset);
            && Open(w.index, path).rc == 0
            && ReadAt(w.index, path, out, offset) == ReadResult(|buf|, buf)
  {
    WriteThenRead(Lookup(idx, path).value, buf, offset, out);
  }

  /**
   * The directories above a written file still resolve, with the
   * same name, attributes, store and child names as before the write.
   */
  lemma WriteAtAncestors(idx: Index, path: string, buf: seq<bv8>, offset: nat, other: string)
    requires Open(idx, path).rc == 0
    requires IsPrefix(Split(other, "/"), Split(path, "/")) && |Split(other, "/")| < |Split(path, "/")|
    ensures var a, b := Lookup(WriteAt(idx, path, buf, offset).index, other), Lookup(idx, other);
            && a.Some? && b.Some?
            && a.value.name == b.value.name && a.value.status == b.value.status
            && a.value.store == b.value.store && a.value.files.Keys == b.value.files.Keys
  {
    var parts, q := Split(path, "/"), Split(other, "/");
    var w := Write(Lookup(idx, path).value, buf, offset).node;
    ReplaceAncestor(idx.root, parts, w, |q|);
    assert parts[..|q|] == q;
  }
}

/**
 * The byte store behind a regular file (fs.cc `read` and `write`): a
 * `std::vector<std::byte>` that `write` grows with zero bytes and that
 * `read` copies from, never past its end.  Offsets and sizes are natural
 * numbers here; the signed/unsigned comparisons of the C++ are not modelled.
 */
module ByteStore {
  import opened Memfs

  function Min(a: nat, b: nat): nat
  {
    if a <= b then a else b
  }

  function Max(a: nat, b: nat): nat
  {
    if a <= b then b else a
  }

  /** `n` zero bytes. */
  function Zeros(n: nat): (r: seq<bv8>)
    ensures |r| == n && forall i :: 0 <= i < n ==> r[i] == 0
  {
    seq(n, _ => 0)
  }

  /** `std::vector::resize(n)`: cut the store to `n` bytes, or extend it with zero bytes. */
  function Resize(s: seq<bv8>, n: nat): (r: seq<bv8>)
    ensures |r| == n
    ensures forall i :: 0 <= i < n && i < |s| ==> r[i] == s[i]
    ensures forall i :: |s| <= i < n ==> r[i] == 0
  {
    if n <= |s| then s[..n] else s + Zeros(n - |s|)
  }

  /** What `read` returns and the caller's buffer after the copy. */
  datatype ReadResult = ReadResult(count: nat, buf: seq<bv8>)

  /**
   * `read(path, buf, size, offset)` on an open file, `size` being `|buf|`:
   * nothing at or past the end of the store; otherwise
   * `min(store.size() - offset, size)` bytes from `offset` are copied to the
   * front of `buf` and the rest of `buf` is left as it was.
   */
  function Read(n: Node, buf: seq<bv8>, offset: nat): (r: ReadResult)
    ensures |r.buf| == |buf|
    ensures offset >= |n.store| ==> r.count == 0 && r.buf == buf
    ensures offset <= |n.store| ==> r.count == Min(|n.store| - offset, |buf|)
    ensures forall i :: 0 <= i < r.count ==> offset + i < |n.store| && r.buf[i] == n.store[offset + i]
    ensures forall i :: r.count <= i < |buf| ==> r.buf[i] == buf[i]
  {
    if offset > |n.store| then ReadResult(0, buf)
    else
      var ret := Min(|n.store| - offset, |buf|);
      ReadResult(ret, n.store[offset..offset + ret] + buf[ret..])
  }

  /** The node after `write` and the number `write` returns. */
  datatype WriteResult = WriteResult(node: Node, count: nat)

  /**
   * `write(path, buf, size, offset)` on an open file, `size` being `|buf|`:
   * grow the store to `offset + size` when it does not reach that far, copy
   * `buf` in at `offset`, and set `st_size` to the new store length.
   */
  function Write(n: Node, buf: seq<bv8>, offset: nat): (r: WriteResult)
    ensures r.count == |buf|
    ensures |r.node.store| == Max(|n.store|, offset + |buf|)
    ensures r.node.store[offset..offset + |buf|] == buf
    ensures forall i :: 0 <= i < |n.store| && !(offset <= i < offset + |buf|) ==> r.node.store[i] == n.store[i]
    ensures forall i :: |n.store| <= i < offset ==> r.node.store[i] == 0
    ensures r.node.status.size == |r.node.store|
    ensures r.node == n.(store := r.node.store, status := n.status.(size := |r.node.store|))
  {
    var grown := if offset + |buf| >= |n.store| then Resize(n.store, offset + |buf|) else n.store;
    var stored := grown[..offset] + buf + grown[offset + |buf|..];
    WriteResult(n.(store := stored, status := n.status.(size := |stored|)), |buf|)
  }

  // ---------------------------------------------------------------------
  // Read/write properties
  // ---------------------------------------------------------------------

  /** Reading `|buf|` bytes where `buf` was just written gives `buf` back, in full. */
  lemma WriteThenRead(n: Node, buf: seq<bv8>, offset: nat, out: seq<bv8>)
    requires |out| == |buf|
    ensures Read(Write(n, buf, offset).node, out, offset) == ReadResult(|buf|, buf)
  {
    var w := Write(n, buf, offset).node;
    var r := Read(w, out, offset);
    assert r.buf == buf by {
      forall i | 0 <= i < |buf|
        ensures r.buf[i] == buf[i]
      {
        assert w.store[offset..offset + |buf|][i] == w.store[offset + i];
      }
    }
  }

  /** A write past the end leaves zero bytes between the old end and the write. */
  lemma WriteGapReadsZero(n: Node, buf: seq<bv8>, offset: nat, out: seq<bv8>)
    requires |n.store| < offset && |out| == offset - |n.store|
    ensures Read(Write(n, buf, offset).node, out, |n.store|) == ReadResult(|out|, Zeros(|out|))
  {
    var w := Write(n, buf, offset).node;
    var r := Read(w, out, |n.store|);
    assert r.buf == Zeros(|out|);
  }

  /** A read of old bytes that the write did not touch sees them unchanged. */
  lemma ReadUnaffectedByWrite(n: Node, buf: seq<bv8>, offset: nat, out: seq<bv8>, at: nat)
    requires at + |out| <= |n.store|
    requires at + |out| <= offset || offset + |buf| <= at
    ensures Read(Write(n, buf, offset).node, out, at) == Read(n, out, at)
  {
    var before := Read(n, out, at);
    var after := Read(Write(n, buf, offset).node, out, at);
    assert after.buf == before.buf;
  }

  /** A write covering an earlier one at the same offset replaces it entirely. */
  lemma WriteOverwrites(n: Node, first: seq<bv8>, second: seq<bv8>, offset: nat)
    requires |first| <= |second|
    ensures Write(Write(n, first, offset).node, second, offset).node == Write(n, second, offset).node
  {
    var a := Write(Write(n, first, offset).node, second, offset).node;
    var b := Write(n, second, offset).node;
    assert |a.store| == |b.store|;
    forall i | 0 <= i < |a.store|
      ensures a.store[i] == b.store[i]
    {
      if offset <= i < offset + |second| {
        assert a.store[offset..offset + |second|][i - offset] == a.store[i];
        assert b.store[offset..offset + |second|][i - offset] == b.store[i];
      }
    }
    assert a.store == b.store;
  }
}

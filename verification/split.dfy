/**
 * Path splitting (index.cc `split`), together with the `std::string::find`
 * it is built on.  `Split(s, d)` breaks `s` at every occurrence of `d`
 * found left to right and drops the empty pieces; an empty delimiter
 * returns `[s]` unchanged.
 */
module PathSplit {
  import opened Wrappers

  /** `d` occurs in `s` starting at position `k`. */
  predicate OccursAt(s: string, d: string, k: nat)
  {
    k + |d| <= |s| && s[k..k + |d|] == d
  }

  /** `d` occurs nowhere in `p`. */
  ghost predicate FreeOf(p: string, d: string)
  {
    forall k: nat :: !OccursAt(p, d, k)
  }

  /** `s.find(d, start)`: the first position at or after `start` where `d` occurs (see FindSpec). */
  function Find(s: string, d: string, start: nat): (r: Option<nat>)
    requires |d| > 0
    ensures r.Some? ==> start <= r.value && r.value + |d| <= |s|
    decreases |s| - start
  {
    if start + |d| > |s| then None
    else if OccursAt(s, d, start) then Some(start)
    else Find(s, d, start + 1)
  }

  /** A piece is kept only when it is not empty. */
  function Keep(p: string): seq<string>
  {
    if |p| == 0 then [] else [p]
  }

  /** The pieces of `s` from position `start` on: one turn of the `while` loop per occurrence. */
  function Pieces(s: string, d: string, start: nat): seq<string>
    requires |d| > 0 && start <= |s|
    decreases |s| - start
  {
    match Find(s, d, start)
    case None => Keep(s[start..])
    case Some(e) => Keep(s[start..e]) + Pieces(s, d, e + |d|)
  }

  /** `split(s, d)`: the non-empty pieces between occurrences of `d`; `[s]` for an empty `d`. */
  function Split(s: string, d: string): seq<string>
  {
    if |d| == 0 then [s] else Pieces(s, d, 0)
  }

  /** The loop of `split` as written: `find`, keep the non-empty part, step past the delimiter. */
  method SplitScan(s: string, d: string) returns (ret: seq<string>)
    ensures ret == Split(s, d)
  {
    if |d| == 0 {
      return [s];
    }
    ghost var whole := Pieces(s, d, 0);
    ret := [];
    var start: nat := 0;
    var end := Find(s, d, start);
    assert [] + whole == whole;
    while end.Some?
      invariant start <= |s|
      invariant end == Find(s, d, start)
      invariant ret + Pieces(s, d, start) == whole
      decreases |s| - start
    {
      var part := s[start..end.value];
      ScanStep(s, d, start, ret);
      if |part| > 0 {
        ret := ret + [part];
      }
      start := end.value + |d|;
      end := Find(s, d, start);
    }
    var last := s[start..];
    ScanLast(s, d, start, ret);
    if |last| > 0 {
      ret := ret + [last];
    }
  }

  /** One turn of the `while` loop of `split` keeps `ret + Pieces(s, d, start)` fixed. */
  lemma ScanStep(s: string, d: string, start: nat, ret: seq<string>)
    requires |d| > 0 && start <= |s| && Find(s, d, start).Some?
    ensures var e := Find(s, d, start).value;
            var part := s[start..e];
            (if |part| > 0 then ret + [part] else ret) + Pieces(s, d, e + |d|) == ret + Pieces(s, d, start)
  {
    var e := Find(s, d, start).value;
    var rest := Pieces(s, d, e + |d|);
    PiecesStep(s, d, start, e);
    assert ret + (Keep(s[start..e]) + rest) == (ret + Keep(s[start..e])) + rest;
  }

  /** The tail after the last delimiter is the last piece. */
  lemma ScanLast(s: string, d: string, start: nat, ret: seq<string>)
    requires |d| > 0 && start <= |s| && Find(s, d, start).None?
    ensures var last := s[start..];
            (if |last| > 0 then ret + [last] else ret) == ret + Pieces(s, d, start)
  {
    PiecesLast(s, d, start);
  }

  // ---------------------------------------------------------------------
  // Facts about Find
  // ---------------------------------------------------------------------

  /** `Find` returns an occurrence, and the first one at or after `start`. */
  lemma {:induction false} FindSpec(s: string, d: string, start: nat)
    requires |d| > 0
    ensures Find(s, d, start).Some? ==> OccursAt(s, d, Find(s, d, start).value)
    ensures forall k: nat :: start <= k && (Find(s, d, start).None? || k < Find(s, d, start).value) ==>
              !OccursAt(s, d, k)
    decreases |s| - start
  {
    if start + |d| > |s| {
    } else if OccursAt(s, d, start) {
    } else {
      FindSpec(s, d, start + 1);
    }
  }

  lemma FindIs(s: string, d: string, start: nat, e: nat)
    requires |d| > 0 && start <= e && OccursAt(s, d, e)
    requires forall k: nat :: start <= k < e ==> !OccursAt(s, d, k)
    ensures Find(s, d, start) == Some(e)
  {
    FindSpec(s, d, start);
  }

  lemma FindNone(s: string, d: string, start: nat)
    requires |d| > 0
    requires forall k: nat :: start <= k ==> !OccursAt(s, d, k)
    ensures Find(s, d, start) == None
  {
    FindSpec(s, d, start);
  }

  /** An occurrence that ends inside `s` is not affected by what follows `s`. */
  lemma OccursPrefix(s: string, t: string, d: string, k: nat)
    requires k + |d| <= |s|
    ensures OccursAt(s + t, d, k) == OccursAt(s, d, k)
  {
    assert (s + t)[k..k + |d|] == s[k..k + |d|];
  }

  /** Occurrences in `s` reappear shifted by `|p|` in `p + s`. */
  lemma OccursShift(p: string, s: string, d: string, k: nat)
    ensures OccursAt(p + s, d, |p| + k) == OccursAt(s, d, k)
  {
    if k + |d| <= |s| {
      assert (p + s)[|p| + k..|p| + k + |d|] == s[k..k + |d|];
    }
  }

  lemma FindExtend(s: string, t: string, d: string, start: nat)
    requires |d| > 0 && Find(s, d, start).Some?
    ensures Find(s + t, d, start) == Find(s, d, start)
  {
    FindSpec(s, d, start);
    var e := Find(s, d, start).value;
    forall k: nat | start <= k < e
      ensures !OccursAt(s + t, d, k)
    {
      OccursPrefix(s, t, d, k);
    }
    OccursPrefix(s, t, d, e);
    FindIs(s + t, d, start, e);
  }

  lemma FindShiftNone(p: string, s: string, d: string, j: nat)
    requires |d| > 0 && Find(s, d, j).None?
    ensures Find(p + s, d, |p| + j).None?
  {
    FindSpec(s, d, j);
    forall k: nat | |p| + j <= k
      ensures !OccursAt(p + s, d, k)
    {
      OccursShift(p, s, d, k - |p|);
    }
    FindNone(p + s, d, |p| + j);
  }

  lemma FindShiftSome(p: string, s: string, d: string, j: nat, e: nat)
    requires |d| > 0 && Find(s, d, j) == Some(e)
    ensures Find(p + s, d, |p| + j) == Some(|p| + e)
  {
    FindSpec(s, d, j);
    forall k: nat | |p| + j <= k < |p| + e
      ensures !OccursAt(p + s, d, k)
    {
      OccursShift(p, s, d, k - |p|);
    }
    OccursShift(p, s, d, e);
    FindIs(p + s, d, |p| + j, |p| + e);
  }

  // ---------------------------------------------------------------------
  // Facts about Pieces and Split, for any non-empty delimiter
  // ---------------------------------------------------------------------

  /** One turn of the loop: the piece up to the next occurrence `e`, then the rest. */
  lemma PiecesStep(s: string, d: string, j: nat, e: nat)
    requires |d| > 0 && j <= |s| && Find(s, d, j) == Some(e)
    ensures Pieces(s, d, j) == Keep(s[j..e]) + Pieces(s, d, e + |d|)
  {
  }

  /** With no occurrence left, the tail is the last piece. */
  lemma PiecesLast(s: string, d: string, j: nat)
    requires |d| > 0 && j <= |s| && Find(s, d, j) == None
    ensures Pieces(s, d, j) == Keep(s[j..])
  {
  }

  /** A slice of `s` that contains no complete occurrence of `d` is free of `d`. */
  lemma SliceFree(s: string, d: string, start: nat, end: nat)
    requires start <= end <= |s|
    requires forall k: nat :: start <= k && k + |d| <= end ==> !OccursAt(s, d, k)
    ensures FreeOf(s[start..end], d)
  {
    forall k: nat
      ensures !OccursAt(s[start..end], d, k)
    {
      if k + |d| <= end - start {
        var u, v := s[start..end][k..k + |d|], s[start + k..start + k + |d|];
        assert forall i :: 0 <= i < |d| ==> u[i] == v[i];
        assert u == v;
        assert !OccursAt(s, d, start + k);
      }
    }
  }

  /** Every piece is non-empty and free of `d`. */
  ghost predicate WellFormed(ps: seq<string>, d: string)
  {
    forall i :: 0 <= i < |ps| ==> ps[i] != "" && FreeOf(ps[i], d)
  }

  lemma KeepWellFormed(p: string, d: string)
    requires FreeOf(p, d)
    ensures WellFormed(Keep(p), d)
  {
  }

  lemma AppendWellFormed(x: seq<string>, y: seq<string>, d: string)
    requires WellFormed(x, d) && WellFormed(y, d)
    ensures WellFormed(x + y, d)
  {
  }

  lemma WellFormedLast(s: string, d: string, start: nat)
    requires |d| > 0 && start <= |s| && Find(s, d, start) == None
    ensures WellFormed(Pieces(s, d, start), d)
  {
    FindSpec(s, d, start);
    PiecesLast(s, d, start);
    SliceFree(s, d, start, |s|);
    assert s[start..|s|] == s[start..];
    KeepWellFormed(s[start..], d);
  }

  lemma WellFormedStep(s: string, d: string, start: nat, e: nat)
    requires |d| > 0 && start <= |s| && Find(s, d, start) == Some(e)
    requires WellFormed(Pieces(s, d, e + |d|), d)
    ensures WellFormed(Pieces(s, d, start), d)
  {
    FindSpec(s, d, start);
    PiecesStep(s, d, start, e);
    SliceFree(s, d, start, e);
    KeepWellFormed(s[start..e], d);
    AppendWellFormed(Keep(s[start..e]), Pieces(s, d, e + |d|), d);
  }

  lemma {:induction false} PiecesWellFormed(s: string, d: string, start: nat)
    requires |d| > 0 && start <= |s|
    ensures WellFormed(Pieces(s, d, start), d)
    decreases |s| - start
  {
    match Find(s, d, start)
    case None =>
      WellFormedLast(s, d, start);
    case Some(e) =>
      PiecesWellFormed(s, d, e + |d|);
      WellFormedStep(s, d, start, e);
  }

  lemma SliceShift(p: string, s: string, a: nat, b: nat)
    requires a <= b <= |s|
    ensures (p + s)[|p| + a..|p| + b] == s[a..b]
  {
  }

  lemma PiecesShiftLast(p: string, s: string, d: string, j: nat)
    requires |d| > 0 && j <= |s| && Find(s, d, j).None?
    ensures Pieces(p + s, d, |p| + j) == Pieces(s, d, j)
  {
    FindShiftNone(p, s, d, j);
    PiecesLast(s, d, j);
    PiecesLast(p + s, d, |p| + j);
    SliceShift(p, s, j, |s|);
    assert s[j..|s|] == s[j..];
    assert (p + s)[|p| + j..|p| + |s|] == (p + s)[|p| + j..];
  }

  lemma PiecesShiftStep(p: string, s: string, d: string, j: nat, e: nat)
    requires |d| > 0 && j <= |s| && Find(s, d, j) == Some(e)
    requires Pieces(p + s, d, |p| + (e + |d|)) == Pieces(s, d, e + |d|)
    ensures Pieces(p + s, d, |p| + j) == Pieces(s, d, j)
  {
    FindShiftSome(p, s, d, j, e);
    PiecesStep(s, d, j, e);
    PiecesStep(p + s, d, |p| + j, |p| + e);
    SliceShift(p, s, j, e);
  }

  lemma {:induction false} PiecesShift(p: string, s: string, d: string, j: nat)
    requires |d| > 0 && j <= |s|
    ensures Pieces(p + s, d, |p| + j) == Pieces(s, d, j)
    decreases |s| - j
  {
    match Find(s, d, j)
    case None =>
      PiecesShiftLast(p, s, d, j);
    case Some(e) =>
      PiecesShift(p, s, d, e + |d|);
      PiecesShiftStep(p, s, d, j, e);
  }

  // ---------------------------------------------------------------------
  // Properties of split for any delimiter
  // ---------------------------------------------------------------------

  /** An empty delimiter gives back `[s]`; otherwise no piece is empty and no piece contains `d`. */
  lemma SplitShape(s: string, d: string)
    ensures |d| == 0 ==> Split(s, d) == [s]
    ensures |d| > 0 ==> forall i :: 0 <= i < |Split(s, d)| ==> Split(s, d)[i] != "" && FreeOf(Split(s, d)[i], d)
  {
    if |d| > 0 {
      PiecesWellFormed(s, d, 0);
    }
  }

  // ---------------------------------------------------------------------
  // Splitting on "/"
  // ---------------------------------------------------------------------

  /** A single path segment: not empty and without '/'. */
  predicate IsSegment(p: string)
  {
    |p| > 0 && '/' !in p
  }

  lemma SlashFree(p: string)
    ensures FreeOf(p, "/") <==> '/' !in p
  {
    if '/' in p {
      var k :| 0 <= k < |p| && p[k] == '/';
      assert p[k..k + 1] == "/";
      assert OccursAt(p, "/", k);
    } else {
      forall k: nat
        ensures !OccursAt(p, "/", k)
      {
        if k + 1 <= |p| {
          assert p[k..k + 1] == [p[k]];
        }
      }
    }
  }

  /** Splitting a path on "/" yields path segments only. */
  lemma SplitSegments(s: string)
    ensures forall i :: 0 <= i < |Split(s, "/")| ==> IsSegment(Split(s, "/")[i])
  {
    var r := Split(s, "/");
    SplitShape(s, "/");
    forall i | 0 <= i < |r|
      ensures IsSegment(r[i])
    {
      SlashFree(r[i]);
    }
  }

  /** A string without '/' is a single piece, or none when it is empty. */
  lemma SplitSlashFree(w: string)
    requires '/' !in w
    ensures Split(w, "/") == Keep(w)
  {
    SlashFree(w);
    FindNone(w, "/", 0);
    PiecesLast(w, "/", 0);
    assert w[0..] == w;
  }

  lemma PrefixSlice(a: string, t: string, i: nat, j: nat)
    requires i <= j <= |a|
    ensures (a + t)[i..j] == a[i..j]
  {
  }

  lemma PiecesConcatLast(a: string, b: string, start: nat)
    requires start <= |a| && Find(a, "/", start).None?
    ensures Pieces(a + ("/" + b), "/", start) == Pieces(a, "/", start) + Pieces(b, "/", 0)
  {
    var s := a + ("/" + b);
    assert Find(s, "/", start) == Some(|a|) by {
      FindSpec(a, "/", start);
      forall k: nat | start <= k < |a|
        ensures !OccursAt(s, "/", k)
      {
        OccursPrefix(a, "/" + b, "/", k);
      }
      assert s[|a|..|a| + 1] == "/";
      FindIs(s, "/", start, |a|);
    }
    assert Pieces(s, "/", |a| + 1) == Pieces(b, "/", 0) by {
      assert s == (a + "/") + b;
      PiecesShift(a + "/", b, "/", 0);
    }
    assert Pieces(s, "/", start) == Keep(a[start..]) + Pieces(s, "/", |a| + 1) by {
      PiecesStep(s, "/", start, |a|);
      PrefixSlice(a, "/" + b, start, |a|);
      assert a[start..|a|] == a[start..];
    }
    PiecesLast(a, "/", start);
  }

  /** Appending text after `a` leaves the pieces before the first delimiter of `a` in place. */
  lemma PiecesExtendStep(a: string, t: string, start: nat, e: nat)
    requires start <= |a| && Find(a, "/", start) == Some(e)
    ensures Pieces(a + t, "/", start) == Keep(a[start..e]) + Pieces(a + t, "/", e + 1)
  {
    FindExtend(a, t, "/", start);
    PiecesStep(a + t, "/", start, e);
    PrefixSlice(a, t, start, e);
  }

  lemma AppendAssoc<T>(x: seq<T>, y: seq<T>, z: seq<T>)
    ensures x + (y + z) == (x + y) + z
  {
  }

  lemma PiecesConcatStep(a: string, b: string, start: nat, e: nat)
    requires start <= |a| && Find(a, "/", start) == Some(e)
    requires Pieces(a + ("/" + b), "/", e + 1) == Pieces(a, "/", e + 1) + Pieces(b, "/", 0)
    ensures Pieces(a + ("/" + b), "/", start) == Pieces(a, "/", start) + Pieces(b, "/", 0)
  {
    PiecesExtendStep(a, "/" + b, start, e);
    PiecesStep(a, "/", start, e);
    AppendAssoc(Keep(a[start..e]), Pieces(a, "/", e + 1), Pieces(b, "/", 0));
  }

  lemma {:induction false} PiecesConcat(a: string, b: string, start: nat)
    requires start <= |a|
    ensures Pieces(a + ("/" + b), "/", start) == Pieces(a, "/", start) + Pieces(b, "/", 0)
    decreases |a| - start
  {
    match Find(a, "/", start)
    case None =>
      PiecesConcatLast(a, b, start);
    case Some(e) =>
      PiecesConcat(a, b, e + 1);
      PiecesConcatStep(a, b, start, e);
  }

  /** Splitting distributes over a '/': the two sides are split independently. */
  lemma SplitConcat(a: string, b: string)
    ensures Split(a + "/" + b, "/") == Split(a, "/") + Split(b, "/")
  {
    assert a + "/" + b == a + ("/" + b);
    PiecesConcat(a, b, 0);
  }

  lemma SplitLeadingSlash(s: string)
    ensures Split("/" + s, "/") == Split(s, "/")
  {
    assert "/" + s == "" + "/" + s;
    SplitConcat("", s);
    SplitSlashFree("");
  }

  /** A trailing '/' does not change the segments. */
  lemma SplitTrailingSlash(s: string)
    ensures Split(s + "/", "/") == Split(s, "/")
  {
    assert s + "/" == s + "/" + "";
    SplitConcat(s, "");
    SplitSlashFree("");
  }

  /** A repeated '/' splits like a single one. */
  lemma SplitDoubledSlash(a: string, b: string)
    ensures Split(a + "//" + b, "/") == Split(a + "/" + b, "/")
  {
    assert a + "//" + b == a + "/" + ("/" + b);
    SplitConcat(a, "/" + b);
    SplitLeadingSlash(b);
    SplitConcat(a, b);
  }

  /** "", "/", "//", ... have no segments at all. */
  lemma {:induction false} SplitAllSlashes(s: string)
    requires forall i :: 0 <= i < |s| ==> s[i] == '/'
    ensures Split(s, "/") == []
    decreases |s|
  {
    if |s| == 0 {
      SplitSlashFree(s);
    } else {
      assert s == "/" + s[1..];
      SplitLeadingSlash(s[1..]);
      SplitAllSlashes(s[1..]);
    }
  }

  /** The canonical absolute path of a list of segments: "/a/b/c", or "" for none. */
  function Join(parts: seq<string>): string
  {
    if parts == [] then "" else "/" + parts[0] + Join(parts[1..])
  }

  /** A canonical path is empty or starts with '/'. */
  lemma JoinStart(parts: seq<string>)
    ensures |Join(parts)| == 0 || Join(parts)[0] == '/'
  {
  }

  /** A segment followed by "" or by a path starting with '/' splits into that segment and the rest's pieces. */
  lemma SegmentThenPath(p: string, t: string)
    requires IsSegment(p) && (|t| == 0 || t[0] == '/')
    ensures Split(p + t, "/") == [p] + Split(t, "/")
  {
    SplitSlashFree(p);
    if |t| == 0 {
      assert p + t == p;
      SplitSlashFree(t);
    } else {
      var x := t[1..];
      assert t == "/" + x;
      assert p + t == p + "/" + x;
      SplitConcat(p, x);
      SplitLeadingSlash(x);
    }
  }

  /** Splitting the canonical path gives the segments back. */
  lemma {:induction false} SplitJoin(parts: seq<string>)
    requires forall i :: 0 <= i < |parts| ==> IsSegment(parts[i])
    ensures Split(Join(parts), "/") == parts
    decreases |parts|
  {
    if parts == [] {
      SplitSlashFree("");
    } else {
      var p, tail := parts[0], parts[1..];
      SplitJoin(tail);
      JoinStart(tail);
      assert Join(parts) == "/" + (p + Join(tail));
      SplitLeadingSlash(p + Join(tail));
      SegmentThenPath(p, Join(tail));
      assert [p] + tail == parts;
    }
  }

  /** The in-order concatenation of the pieces. */
  function Concat(parts: seq<string>): string
  {
    if parts == [] then "" else parts[0] + Concat(parts[1..])
  }

  /** `s` with every '/' removed. */
  function Unslashed(s: string): string
  {
    if s == "" then "" else (if s[0] == '/' then "" else [s[0]]) + Unslashed(s[1..])
  }

  lemma {:induction false} ConcatAppend(x: seq<string>, y: seq<string>)
    ensures Concat(x + y) == Concat(x) + Concat(y)
    decreases |x|
  {
    if x == [] {
      assert x + y == y;
    } else {
      assert (x + y)[1..] == x[1..] + y;
      ConcatAppend(x[1..], y);
    }
  }

  lemma {:induction false} UnslashedAppend(x: string, y: string)
    ensures Unslashed(x + y) == Unslashed(x) + Unslashed(y)
    decreases |x|
  {
    if x == "" {
      assert x + y == y;
    } else {
      assert (x + y)[1..] == x[1..] + y;
      UnslashedAppend(x[1..], y);
    }
  }

  lemma {:induction false} UnslashedFree(w: string)
    requires '/' !in w
    ensures Unslashed(w) == w
    decreases |w|
  {
    if w != "" {
      UnslashedFree(w[1..]);
      assert [w[0]] + w[1..] == w;
    }
  }

  /** Flattening commutes with joining two strings by a '/'. */
  lemma FlattenStep(a: string, b: string)
    requires Concat(Split(a, "/")) == Unslashed(a) && Concat(Split(b, "/")) == Unslashed(b)
    ensures Concat(Split(a + "/" + b, "/")) == Unslashed(a + "/" + b)
  {
    SplitConcat(a, b);
    ConcatAppend(Split(a, "/"), Split(b, "/"));
    UnslashedAroundSlash(a, b);
  }

  lemma UnslashedAroundSlash(a: string, b: string)
    ensures Unslashed(a + "/" + b) == Unslashed(a) + Unslashed(b)
  {
    UnslashedAppend(a + "/", b);
    UnslashedAppend(a, "/");
    UnslashedSlash();
  }

  lemma UnslashedSlash()
    ensures Unslashed("/") == ""
  {
    var s := "/";
    assert s[0] == '/' && s[1..] == "";
  }

  /** The segments, concatenated in order, are the path with every '/' removed. */
  lemma {:induction false} SplitFlatten(s: string)
    ensures Concat(Split(s, "/")) == Unslashed(s)
    decreases |s|
  {
    if '/' in s {
      var i :| 0 <= i < |s| && s[i] == '/';
      var a, b := s[..i], s[i + 1..];
      assert s == a + "/" + b;
      SplitFlatten(a);
      SplitFlatten(b);
      FlattenStep(a, b);
    } else {
      SplitSlashFree(s);
      UnslashedFree(s);
      if s != "" {
        assert Concat([s]) == s + Concat([]);
      }
    }
  }
}

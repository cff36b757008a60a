/**
 * The destination image as an in-memory byte array. A positioned write
 * (`pwrite`) copies its bytes at an offset and fails, changing nothing, when
 * they would not fit; a list of writes applied in order is the functional
 * description of what a sequence of such writes leaves behind.
 */
module ImageSink {
  import opened Bytes

  /** `data` written at byte `offset`. */
  datatype Write = Write(offset: nat, data: seq<byte>)
  {
    function End(): nat { offset + |data| }
  }

  ghost predicate AllFit(size: nat, ws: seq<Write>)
  {
    forall i :: 0 <= i < |ws| ==> ws[i].End() <= size
  }

  /** The byte ranges of `a` and `b` do not overlap. */
  ghost predicate Disjoint(a: Write, b: Write)
  {
    a.End() <= b.offset || b.End() <= a.offset
  }

  /** Each write ends at or before the offset where any later one begins. */
  ghost predicate InOrder(ws: seq<Write>)
  {
    forall i, j :: 0 <= i < j < |ws| ==> ws[i].End() <= ws[j].offset
  }

  /** `s` with the bytes of `w` in place; every other byte is kept. */
  function Splice(s: seq<byte>, w: Write): (r: seq<byte>)
    requires w.End() <= |s|
    ensures |r| == |s|
    ensures r[w.offset..w.End()] == w.data
    ensures forall i :: 0 <= i < |s| && !(w.offset <= i < w.End()) ==> r[i] == s[i]
  {
    s[..w.offset] + w.data + s[w.End()..]
  }

  /** The bytes after applying the writes `ws` to `s`, first write first. */
  function ApplyWrites(s: seq<byte>, ws: seq<Write>): (r: seq<byte>)
    requires AllFit(|s|, ws)
    ensures |r| == |s|
    decreases |ws|
  {
    if ws == [] then s else Splice(ApplyWrites(s, ws[..|ws| - 1]), ws[|ws| - 1])
  }

  /** Applying one more write is splicing it into what the earlier ones left. */
  lemma ApplyOneMore(s: seq<byte>, ws: seq<Write>, w: Write)
    requires AllFit(|s|, ws) && w.End() <= |s|
    ensures AllFit(|s|, ws + [w])
    ensures ApplyWrites(s, ws + [w]) == Splice(ApplyWrites(s, ws), w)
  {
    assert (ws + [w])[..|ws|] == ws;
  }

  /** A list of one write fits when the write does, and applying it is splicing it in. */
  lemma ApplyOne(s: seq<byte>, w0: Write)
    ensures AllFit(|s|, [w0]) <==> w0.End() <= |s|
    ensures AllFit(|s|, [w0]) ==> ApplyWrites(s, [w0]) == Splice(s, w0)
  {
    assert [w0][0] == w0;
    if w0.End() <= |s| {
      ApplyOneMore(s, [], w0);
      assert [] + [w0] == [w0];
    }
  }

  /** Two writes fit when each does, and are applied one after the other. */
  lemma ApplyTwo(s: seq<byte>, w0: Write, w1: Write)
    ensures AllFit(|s|, [w0, w1]) <==> w0.End() <= |s| && w1.End() <= |s|
    ensures AllFit(|s|, [w0, w1]) ==> ApplyWrites(s, [w0, w1]) == Splice(Splice(s, w0), w1)
  {
    assert [w0, w1][0] == w0 && [w0, w1][1] == w1;
    if w0.End() <= |s| && w1.End() <= |s| {
      ApplyOne(s, w0);
      ApplyOneMore(s, [w0], w1);
      assert [w0] + [w1] == [w0, w1];
    }
  }

  /** Three writes fit when each does, and are applied one after the other. */
  lemma ApplyThree(s: seq<byte>, w0: Write, w1: Write, w2: Write)
    ensures AllFit(|s|, [w0, w1, w2]) <==> w0.End() <= |s| && w1.End() <= |s| && w2.End() <= |s|
    ensures AllFit(|s|, [w0, w1, w2]) ==>
      ApplyWrites(s, [w0, w1, w2]) == Splice(Splice(Splice(s, w0), w1), w2)
  {
    assert [w0, w1, w2][0] == w0 && [w0, w1, w2][1] == w1 && [w0, w1, w2][2] == w2;
    if w0.End() <= |s| && w1.End() <= |s| && w2.End() <= |s| {
      ApplyTwo(s, w0, w1);
      ApplyOneMore(s, [w0, w1], w2);
      assert [w0, w1] + [w2] == [w0, w1, w2];
    }
  }

  /** Two lists fit together exactly when each fits. */
  lemma FitsConcat(size: nat, a: seq<Write>, b: seq<Write>)
    ensures AllFit(size, a + b) <==> AllFit(size, a) && AllFit(size, b)
  {
    assert forall i :: 0 <= i < |a| ==> (a + b)[i] == a[i];
    assert forall i :: 0 <= i < |b| ==> (a + b)[|a| + i] == b[i];
  }

  /** Applying `a + b` is applying `a`, then `b` to the result. */
  lemma {:induction false} ApplyConcat(s: seq<byte>, a: seq<Write>, b: seq<Write>)
    requires AllFit(|s|, a) && AllFit(|s|, b)
    ensures AllFit(|s|, a + b)
    ensures ApplyWrites(s, a + b) == ApplyWrites(ApplyWrites(s, a), b)
    decreases |b|
  {
    if b == [] {
      assert a + b == a;
    } else {
      var front := b[..|b| - 1];
      assert (a + b)[..|a + b| - 1] == a + front;
      ApplyConcat(s, a, front);
    }
  }

  /**
   * Six groups of writes, one after the other: they fit exactly when each
   * group does, and applying them all is applying each group in turn to what
   * the earlier ones left.
   */
  lemma ApplyGroups(s: seq<byte>, a: seq<Write>, b: seq<Write>, c: seq<Write>, d: seq<Write>,
                    e: seq<Write>, f: seq<Write>)
    ensures AllFit(|s|, a + b + c + d + e + f) <==>
      AllFit(|s|, a) && AllFit(|s|, b) && AllFit(|s|, c) && AllFit(|s|, d) && AllFit(|s|, e) && AllFit(|s|, f)
    ensures AllFit(|s|, a + b + c + d + e + f) ==>
      ApplyWrites(s, a + b + c + d + e + f)
      == ApplyWrites(ApplyWrites(ApplyWrites(ApplyWrites(ApplyWrites(ApplyWrites(s, a), b), c), d), e), f)
  {
    FitsConcat(|s|, a, b);
    FitsConcat(|s|, a + b, c);
    FitsConcat(|s|, a + b + c, d);
    FitsConcat(|s|, a + b + c + d, e);
    FitsConcat(|s|, a + b + c + d + e, f);
    if AllFit(|s|, a + b + c + d + e + f) {
      ApplyConcat(s, a, b);
      ApplyConcat(s, a + b, c);
      ApplyConcat(s, a + b + c, d);
      ApplyConcat(s, a + b + c + d, e);
      ApplyConcat(s, a + b + c + d + e, f);
    }
  }

  /** Bytes that no write touches keep their value. */
  lemma {:induction false} Untouched(s: seq<byte>, ws: seq<Write>, i: nat)
    requires AllFit(|s|, ws) && i < |s|
    requires forall j :: 0 <= j < |ws| ==> !(ws[j].offset <= i < ws[j].End())
    ensures ApplyWrites(s, ws)[i] == s[i]
    decreases |ws|
  {
    if ws != [] {
      Untouched(s, ws[..|ws| - 1], i);
    }
  }

  /**
   * A write that no later write overlaps can be read back, unchanged, from
   * the final bytes.
   */
  lemma {:induction false} ReadBack(s: seq<byte>, ws: seq<Write>, k: nat)
    requires AllFit(|s|, ws) && k < |ws|
    requires forall j :: k < j < |ws| ==> Disjoint(ws[j], ws[k])
    ensures ApplyWrites(s, ws)[ws[k].offset..ws[k].End()] == ws[k].data
    decreases |ws|
  {
    if k < |ws| - 1 {
      var prefix := ws[..|ws| - 1];
      assert AllFit(|s|, prefix) && prefix[k] == ws[k];
      ReadBack(s, prefix, k);
      SpliceKeeps(ApplyWrites(s, prefix), ws[|ws| - 1], ws[k]);
    }
  }

  /** Splicing in a write leaves the bytes of a range it does not overlap as they were. */
  lemma SpliceKeeps(s: seq<byte>, w: Write, v: Write)
    requires w.End() <= |s| && v.End() <= |s| && Disjoint(w, v)
    ensures Splice(s, w)[v.offset..v.End()] == s[v.offset..v.End()]
  {
    var r := Splice(s, w);
    forall i | v.offset <= i < v.End()
      ensures r[i] == s[i]
    {
    }
  }

  /** Three writes that do not overlap can each be read back from the final bytes. */
  lemma ReadBackThree(s: seq<byte>, w0: Write, w1: Write, w2: Write)
    requires w0.End() <= |s| && w1.End() <= |s| && w2.End() <= |s|
    requires Disjoint(w0, w1) && Disjoint(w0, w2) && Disjoint(w1, w2)
    ensures AllFit(|s|, [w0, w1, w2])
    ensures var r := ApplyWrites(s, [w0, w1, w2]);
            && r[w0.offset..w0.End()] == w0.data
            && r[w1.offset..w1.End()] == w1.data
            && r[w2.offset..w2.End()] == w2.data
  {
    ApplyThree(s, w0, w1, w2);
    var s1 := Splice(s, w0);
    var s2 := Splice(s1, w1);
    SpliceKeeps(s1, w1, w0);
    SpliceKeeps(s2, w2, w0);
    SpliceKeeps(s2, w2, w1);
  }

  /** When the writes are laid out in increasing order, each one can be read back from the final bytes. */
  lemma ReadBackInOrder(s: seq<byte>, ws: seq<Write>, k: nat)
    requires AllFit(|s|, ws) && InOrder(ws) && k < |ws|
    ensures ApplyWrites(s, ws)[ws[k].offset..ws[k].End()] == ws[k].data
  {
    forall j | k < j < |ws|
      ensures Disjoint(ws[j], ws[k])
    {
      assert ws[k].End() <= ws[j].offset;
    }
    ReadBack(s, ws, k);
  }

  /** Two lists each in order, the first ending before the second begins, are in order together. */
  lemma InOrderConcat(a: seq<Write>, b: seq<Write>)
    requires InOrder(a) && InOrder(b)
    requires a != [] && b != [] ==> a[|a| - 1].End() <= b[0].offset
    ensures InOrder(a + b)
  {
    var ab := a + b;
    forall i, j | 0 <= i < j < |ab|
      ensures ab[i].End() <= ab[j].offset
    {
      if j < |a| {
        assert ab[i] == a[i] && ab[j] == a[j];
      } else if |a| <= i {
        assert ab[i] == b[i - |a|] && ab[j] == b[j - |a|];
      } else {
        assert ab[i] == a[i] && ab[j] == b[j - |a|];
        var last := |a| - 1;
        assert a[i].End() <= a[last].End() by {
          if i < last { assert a[i].End() <= a[last].offset; }
        }
        assert b[0].offset <= b[j - |a|].offset by {
          if 0 < j - |a| { assert b[0].End() <= b[j - |a|].offset; }
        }
      }
    }
  }

  /** Six non-empty groups, each in order and each ending before the next begins, are in order together. */
  lemma InOrderGroups(a: seq<Write>, b: seq<Write>, c: seq<Write>, d: seq<Write>, e: seq<Write>, f: seq<Write>)
    requires a != [] && b != [] && c != [] && d != [] && e != [] && f != []
    requires InOrder(a) && InOrder(b) && InOrder(c) && InOrder(d) && InOrder(e) && InOrder(f)
    requires a[|a| - 1].End() <= b[0].offset && b[|b| - 1].End() <= c[0].offset
    requires c[|c| - 1].End() <= d[0].offset && d[|d| - 1].End() <= e[0].offset
    requires e[|e| - 1].End() <= f[0].offset
    ensures InOrder(a + b + c + d + e + f)
  {
    InOrderConcat(a, b);
    assert (a + b)[|a + b| - 1] == b[|b| - 1];
    InOrderConcat(a + b, c);
    assert (a + b + c)[|a + b + c| - 1] == c[|c| - 1];
    InOrderConcat(a + b + c, d);
    assert (a + b + c + d)[|a + b + c + d| - 1] == d[|d| - 1];
    InOrderConcat(a + b + c + d, e);
    assert (a + b + c + d + e)[|a + b + c + d + e| - 1] == e[|e| - 1];
    InOrderConcat(a + b + c + d + e, f);
  }

  /** Every write of `group` is present in `img`. */
  ghost predicate Holds(img: seq<byte>, group: seq<Write>)
  {
    forall j :: 0 <= j < |group| ==> group[j].End() <= |img| && img[group[j].offset..group[j].End()] == group[j].data
  }

  /** Every write of a group found at position `n` of an ordered list can be read back from the final bytes. */
  lemma ReadBackSlice(s: seq<byte>, ws: seq<Write>, n: nat, group: seq<Write>)
    requires AllFit(|s|, ws) && InOrder(ws) && n + |group| <= |ws| && ws[n..n + |group|] == group
    ensures Holds(ApplyWrites(s, ws), group)
  {
    var r := ApplyWrites(s, ws);
    forall j | 0 <= j < |group|
      ensures group[j].End() <= |r| && r[group[j].offset..group[j].End()] == group[j].data
    {
      assert ws[n + j] == group[j];
      ReadBackInOrder(s, ws, n + j);
    }
  }

  /** A slice that lies within the first part of a concatenation is a slice of that part. */
  lemma SliceLeft(p: seq<Write>, q: seq<Write>, i: nat, j: nat)
    requires i <= j <= |p|
    ensures (p + q)[i..j] == p[i..j]
  {
  }

  /** The second part of a concatenation is the slice where it lies. */
  lemma SliceRight(p: seq<Write>, q: seq<Write>)
    ensures (p + q)[|p|..|p| + |q|] == q
  {
  }

  /**
   * Of six groups laid out in increasing order, group `which` (counting from
   * 0) can be read back from the bytes they all leave behind.
   */
  lemma ReadBackGroup(s: seq<byte>, ws: seq<Write>, a: seq<Write>, b: seq<Write>, c: seq<Write>,
                      d: seq<Write>, e: seq<Write>, f: seq<Write>, which: nat)
    requires ws == a + b + c + d + e + f && AllFit(|s|, ws) && InOrder(ws) && which < 6
    ensures which == 0 ==> Holds(ApplyWrites(s, ws), a)
    ensures which == 1 ==> Holds(ApplyWrites(s, ws), b)
    ensures which == 2 ==> Holds(ApplyWrites(s, ws), c)
    ensures which == 3 ==> Holds(ApplyWrites(s, ws), d)
    ensures which == 4 ==> Holds(ApplyWrites(s, ws), e)
    ensures which == 5 ==> Holds(ApplyWrites(s, ws), f)
  {
    var group := [a, b, c, d, e, f][which];
    var p1 := a;
    var p2 := p1 + b;
    var p3 := p2 + c;
    var p4 := p3 + d;
    var p5 := p4 + e;
    var before := [[], p1, p2, p3, p4, p5][which];
    var upto := [p1, p2, p3, p4, p5, ws][which];
    SliceRight(before, group);
    assert upto == before + group;
    var n := |before|;
    var m := n + |group|;
    if which < 5 { SliceLeft(p5, f, n, m); }
    if which < 4 { SliceLeft(p4, e, n, m); }
    if which < 3 { SliceLeft(p3, d, n, m); }
    if which < 2 { SliceLeft(p2, c, n, m); }
    if which < 1 { SliceLeft(p1, b, n, m); }
    assert ws[n..m] == group;
    ReadBackSlice(s, ws, n, group);
  }

  /** The first `k` writes of `ws` fit and have been made on `s`, leaving `r`. */
  ghost predicate MadeFirst(s: seq<byte>, ws: seq<Write>, k: nat, r: seq<byte>)
  {
    k <= |ws| && AllFit(|s|, ws[..k]) && r == ApplyWrites(s, ws[..k])
  }

  /** Writing `ws` in order stopped at write `k`, the first that does not fit, and left `r`. */
  ghost predicate StoppedAt(s: seq<byte>, ws: seq<Write>, k: nat, r: seq<byte>)
  {
    MadeFirst(s, ws, k, r) && k < |ws| && |s| < ws[k].End()
  }

  /** Writing `ws` in order stopped at the first write that does not fit, and left `r`. */
  ghost predicate Stopped(s: seq<byte>, ws: seq<Write>, r: seq<byte>)
  {
    exists k: nat :: StoppedAt(s, ws, k, r)
  }

  /** A run of writes that stopped did not fit as a whole. */
  lemma StoppedUnfit(s: seq<byte>, ws: seq<Write>, r: seq<byte>)
    requires Stopped(s, ws, r)
    ensures !AllFit(|s|, ws)
  {
    var k: nat :| StoppedAt(s, ws, k, r);
    assert |s| < ws[k].End();
  }

  /** Where a single write stops: before it, leaving the bytes as they were. */
  lemma StopOne(s: seq<byte>, w0: Write)
    ensures |s| < w0.End() ==> StoppedAt(s, [w0], 0, s)
  {
    assert [w0][..0] == [];
  }

  /** Where two writes stop: at the first that does not fit, with the earlier one made. */
  lemma StopTwo(s: seq<byte>, w0: Write, w1: Write)
    ensures |s| < w0.End() ==> StoppedAt(s, [w0, w1], 0, s)
    ensures w0.End() <= |s| < w1.End() ==> StoppedAt(s, [w0, w1], 1, Splice(s, w0))
  {
    assert [w0, w1][..0] == [];
    assert [w0, w1][..1] == [w0];
    ApplyOne(s, w0);
  }

  /** Where three writes stop: at the first that does not fit, with the earlier ones made. */
  lemma StopThree(s: seq<byte>, w0: Write, w1: Write, w2: Write)
    ensures |s| < w0.End() ==> StoppedAt(s, [w0, w1, w2], 0, s)
    ensures w0.End() <= |s| < w1.End() ==> StoppedAt(s, [w0, w1, w2], 1, Splice(s, w0))
    ensures w0.End() <= |s| && w1.End() <= |s| < w2.End() ==>
      StoppedAt(s, [w0, w1, w2], 2, Splice(Splice(s, w0), w1))
  {
    assert [w0, w1, w2][..0] == [];
    assert [w0, w1, w2][..1] == [w0];
    assert [w0, w1, w2][..2] == [w0, w1];
    ApplyOne(s, w0);
    ApplyTwo(s, w0, w1);
  }

  /** A run that stops within `a` stops at the same place when more writes follow. */
  lemma StoppedConcat(s: seq<byte>, a: seq<Write>, b: seq<Write>, r: seq<byte>)
    requires Stopped(s, a, r)
    ensures Stopped(s, a + b, r)
  {
    var k: nat :| StoppedAt(s, a, k, r);
    assert (a + b)[..k] == a[..k];
    assert (a + b)[k] == a[k];
    assert StoppedAt(s, a + b, k, r);
  }

  /** A run that stops within `a` stops at the same place when four more groups follow. */
  lemma StoppedTail(s: seq<byte>, a: seq<Write>, c: seq<Write>, d: seq<Write>, e: seq<Write>, f: seq<Write>,
                    r: seq<byte>)
    requires Stopped(s, a, r)
    ensures Stopped(s, a + c + d + e + f, r)
  {
    StoppedConcat(s, a, c, r);
    StoppedConcat(s, a + c, d, r);
    StoppedConcat(s, a + c + d, e, r);
    StoppedConcat(s, a + c + d + e, f, r);
  }

  /** A run that makes all of `a` and then stops within `b` stops within `a + b`. */
  lemma StoppedAfter(s: seq<byte>, a: seq<Write>, b: seq<Write>, r: seq<byte>)
    requires AllFit(|s|, a) && Stopped(ApplyWrites(s, a), b, r)
    ensures Stopped(s, a + b, r)
  {
    var k: nat :| StoppedAt(ApplyWrites(s, a), b, k, r);
    assert (a + b)[..|a| + k] == a + b[..k];
    assert (a + b)[|a| + k] == b[k];
    ApplyConcat(s, a, b[..k]);
    assert StoppedAt(s, a + b, |a| + k, r);
  }

  /**
   * `pwrite(fd, data, |data|, offset)` on an image of fixed size: the write
   * succeeds exactly when it fits, and then changes exactly its own bytes.
   */
  method PWrite(image: array<byte>, w: Write) returns (ok: bool)
    modifies image
    ensures ok == (w.End() <= image.Length)
    ensures image[..] == if ok then Splice(old(image[..]), w) else old(image[..])
  {
    ok := w.End() <= image.Length;
    if ok {
      forall i | 0 <= i < |w.data| {
        image[w.offset + i] := w.data[i];
      }
      assert image[..] == Splice(old(image[..]), w);
    }
  }
}

/** Spans of a byte buffer as sequences: what writing a run of values at an
    offset does to the whole buffer, and the buffer seen as 8-byte blocks.
    Everything here is generic in the element type. */
module Spans {

  /** s with the values of b written over it from offset on (Span.CopyTo
      into a slice of s). */
  function Splice<T>(s: seq<T>, offset: nat, b: seq<T>): (r: seq<T>)
    requires offset + |b| <= |s|
    ensures |r| == |s|
    ensures r[offset..offset + |b|] == b
    ensures r[..offset] == s[..offset] && r[offset + |b|..] == s[offset + |b|..]
  {
    s[..offset] + b + s[offset + |b|..]
  }

  /** Writing just past a prefix leaves the prefix and the rest of the tail. */
  lemma SpliceAfterPrefix<T>(x: seq<T>, y: seq<T>, b: seq<T>)
    requires |b| <= |y|
    ensures Splice(x + y, |x|, b) == x + b + y[|b|..]
  {
    assert (x + y)[..|x|] == x;
    assert (x + y)[|x| + |b|..] == y[|b|..];
  }

  /** Block k of s: the values at 8k .. 8k + 7. */
  function Block<T>(s: seq<T>, k: nat): (b: seq<T>)
    requires 8 * k + 8 <= |s|
    ensures |b| == 8
  {
    s[8 * k..8 * k + 8]
  }

  /** Writing block j changes block j and no other. */
  lemma BlockOfSplice<T>(s: seq<T>, j: nat, b: seq<T>, k: nat)
    requires |b| == 8 && 8 * j + 8 <= |s| && 8 * k + 8 <= |s|
    ensures Block(Splice(s, 8 * j, b), k) == if k == j then b else Block(s, k)
  {
    var r := Splice(s, 8 * j, b);
    if k < j {
      assert Block(r, k) == r[..8 * j][8 * k..8 * k + 8];
    } else if k > j {
      assert Block(r, k) == r[8 * j + 8..][8 * (k - j - 1)..8 * (k - j - 1) + 8];
      assert Block(s, k) == s[8 * j + 8..][8 * (k - j - 1)..8 * (k - j - 1) + 8];
    }
  }

  /** Two buffers of whole blocks that agree block by block are equal. */
  lemma SameBlocks<T>(s: seq<T>, t: seq<T>)
    requires |s| == |t| && |s| % 8 == 0
    requires forall k: nat | 8 * k + 8 <= |s| :: Block(s, k) == Block(t, k)
    ensures s == t
  {
    forall i | 0 <= i < |s|
      ensures s[i] == t[i]
    {
      var k := i / 8;
      assert Block(s, k)[i - 8 * k] == s[i];
      assert Block(t, k)[i - 8 * k] == t[i];
    }
  }

  /** f maps blocks to blocks. */
  ghost predicate KeepsBlocks<T(!new)>(f: seq<T> -> seq<T>)
  {
    forall b: seq<T> | |b| == 8 :: |f(b)| == 8
  }

  /** s cut into blocks of 8 from the front, each whole block replaced by f
      of it; a trailing partial block is left as it is. */
  function MapBlocks<T(!new)>(f: seq<T> -> seq<T>, s: seq<T>): (r: seq<T>)
    ensures KeepsBlocks(f) ==> |r| == |s|
    decreases |s|
  {
    if |s| < 8 then s else f(s[..8]) + MapBlocks(f, s[8..])
  }

  /** Mapping two pieces separately and concatenating is mapping their
      concatenation, when the first piece is whole blocks. */
  lemma {:induction false} MapBlocksAppend<T(!new)>(f: seq<T> -> seq<T>, s: seq<T>, t: seq<T>)
    requires |s| % 8 == 0
    ensures MapBlocks(f, s + t) == MapBlocks(f, s) + MapBlocks(f, t)
    decreases |s|
  {
    if |s| == 0 {
      assert s + t == t;
    } else {
      assert (s + t)[..8] == s[..8] && (s + t)[8..] == s[8..] + t;
      MapBlocksAppend(f, s[8..], t);
    }
  }

  /** Extending a block-aligned prefix by the next block. */
  lemma MapBlocksSnoc<T(!new)>(f: seq<T> -> seq<T>, s: seq<T>, i: nat)
    requires i % 8 == 0 && i + 8 <= |s|
    ensures MapBlocks(f, s[..i + 8]) == MapBlocks(f, s[..i]) + f(s[i..i + 8])
  {
    var block := s[i..i + 8];
    assert s[..i + 8] == s[..i] + block;
    MapBlocksAppend(f, s[..i], block);
    assert block[..8] == block && block[8..] == [];
    assert MapBlocks(f, block) == f(block) + MapBlocks(f, []);
  }

  /** Block k + 1 of a block followed by y is block k of y. */
  lemma BlockAfterBlock<T>(x: seq<T>, y: seq<T>, k: nat)
    requires |x| == 8 && 8 * k + 8 <= |y|
    ensures Block(x + y, k + 1) == Block(y, k)
  {
  }

  /** Block k of the mapped sequence is f of block k. */
  lemma {:induction false} MapBlocksAt<T(!new)>(f: seq<T> -> seq<T>, s: seq<T>, k: nat)
    requires KeepsBlocks(f) && 8 * k + 8 <= |s|
    ensures Block(MapBlocks(f, s), k) == f(Block(s, k))
    decreases k
  {
    assert MapBlocks(f, s) == f(s[..8]) + MapBlocks(f, s[8..]);
    if k > 0 {
      MapBlocksAt(f, s[8..], k - 1);
      BlockAfterBlock(f(s[..8]), MapBlocks(f, s[8..]), k - 1);
      BlockAfterBlock(s[..8], s[8..], k - 1);
      assert s[..8] + s[8..] == s;
    }
  }

  /** Concatenations with equal-length fronts are equal only piece by piece. */
  lemma AppendCancel<T>(a: seq<T>, b: seq<T>, c: seq<T>, e: seq<T>)
    requires |a| == |c| && a + b == c + e
    ensures a == c && b == e
  {
    assert a == (a + b)[..|a|] && c == (c + e)[..|a|];
    assert b == (a + b)[|a|..] && e == (c + e)[|a|..];
  }

  /** With f injective on blocks, so is MapBlocks f on sequences of one length. */
  lemma {:induction false} MapBlocksInjective<T(!new)>(f: seq<T> -> seq<T>, s: seq<T>, t: seq<T>)
    requires KeepsBlocks(f) && |s| == |t|
    requires forall b: seq<T>, c: seq<T> | |b| == 8 && |c| == 8 && f(b) == f(c) :: b == c
    ensures MapBlocks(f, s) == MapBlocks(f, t) <==> s == t
    decreases |s|
  {
    if |s| >= 8 && MapBlocks(f, s) == MapBlocks(f, t) {
      AppendCancel(f(s[..8]), MapBlocks(f, s[8..]), f(t[..8]), MapBlocks(f, t[8..]));
      MapBlocksInjective(f, s[8..], t[8..]);
      assert s == s[..8] + s[8..] && t == t[..8] + t[8..];
    }
  }

  /** Mapping by g and then by an inverse f of g on blocks gives s back. */
  lemma {:induction false} MapBlocksInverse<T(!new)>(f: seq<T> -> seq<T>, g: seq<T> -> seq<T>, s: seq<T>)
    requires KeepsBlocks(g)
    requires forall b: seq<T> | |b| == 8 :: f(g(b)) == b
    ensures MapBlocks(f, MapBlocks(g, s)) == s
    decreases |s|
  {
    if |s| >= 8 {
      var m := MapBlocks(g, s);
      assert m == g(s[..8]) + MapBlocks(g, s[8..]);
      assert m[..8] == g(s[..8]) && m[8..] == MapBlocks(g, s[8..]);
      MapBlocksInverse(f, g, s[8..]);
      assert s == s[..8] + s[8..];
    }
  }

  /** One step of a loop that maps blocks from the front: with the first i
      values mapped and the rest still target's, writing f of the next source
      block over block i leaves i + 8 values mapped. */
  lemma MapBlocksStep<T(!new)>(f: seq<T> -> seq<T>, source: seq<T>, target: seq<T>, i: nat)
    requires KeepsBlocks(f) && i % 8 == 0 && i + 8 <= |source| && i + 8 <= |target|
    ensures Splice(MapBlocks(f, source[..i]) + target[i..], i, f(source[i..i + 8]))
         == MapBlocks(f, source[..i + 8]) + target[i + 8..]
  {
    SpliceAfterPrefix(MapBlocks(f, source[..i]), target[i..], f(source[i..i + 8]));
    MapBlocksSnoc(f, source, i);
    assert target[i..][8..] == target[i + 8..];
  }

  /** Appending leaves every prefix of the original alone. */
  lemma TakeSnoc<T>(s: seq<T>, x: T, m: nat)
    requires m <= |s|
    ensures (s + [x])[..m] == s[..m]
  {
  }

  /** Taking all of s is s. */
  lemma TakeAll<T>(s: seq<T>)
    ensures s[..|s|] == s
  {
  }

  /** A prefix of a longer sequence's prefix t is that prefix of t. */
  lemma TakeOfPrefix<T>(s: seq<T>, t: seq<T>, m: nat)
    requires |t| <= |s| && s[..|t|] == t && m <= |t|
    ensures s[..m] == t[..m]
  {
    assert s[..m] == s[..|t|][..m];
  }

  /** A slice of s that starts inside its prefix t and ends past it. */
  lemma SliceAcrossPrefix<T>(s: seq<T>, t: seq<T>, m: nat, j: nat)
    requires |t| <= |s| && s[..|t|] == t && m <= |t| <= j <= |s|
    ensures s[m..j] == t[m..] + s[|t|..j]
  {
    assert s[m..j] == s[..|t|][m..] + s[|t|..j];
  }

  /** A prefix of x + y no longer than x is a prefix of x. */
  lemma TakeOfAppend<T>(x: seq<T>, y: seq<T>, n: nat)
    requires n <= |x|
    ensures (x + y)[..n] == x[..n]
  {
  }

  /** Two sequences with the same tail from n on agree on every slice there. */
  lemma SliceOfSameTail<T>(s: seq<T>, t: seq<T>, n: nat, j: nat)
    requires n <= j <= |s| == |t| && s[n..] == t[n..]
    ensures s[n..j] == t[n..j]
  {
    assert s[n..j] == s[n..][..j - n] && t[n..j] == t[n..][..j - n];
  }

  /** The sequences of ss one after another. */
  function Concat<T>(ss: seq<seq<T>>): (r: seq<T>)
    ensures ss == [] ==> r == []
  {
    if ss == [] then [] else Concat(ss[..|ss| - 1]) + ss[|ss| - 1]
  }

  /** Pieces of whole blocks put together are whole blocks. */
  lemma {:induction false} ConcatOfBlocks<T>(ss: seq<seq<T>>)
    requires forall j | 0 <= j < |ss| :: |ss[j]| % 8 == 0
    ensures |Concat(ss)| % 8 == 0
    decreases |ss|
  {
    if ss != [] {
      var front := ss[..|ss| - 1];
      assert forall j | 0 <= j < |front| :: front[j] == ss[j];
      ConcatOfBlocks(front);
      var a, b := |Concat(front)|, |ss[|ss| - 1]|;
      assert a + b == 8 * (a / 8) + 8 * (b / 8);
    }
  }

  /** Putting together ss and then x. */
  lemma ConcatSnoc<T>(ss: seq<seq<T>>, x: seq<T>)
    ensures Concat(ss + [x]) == Concat(ss) + x
  {
    assert (ss + [x])[..|ss|] == ss;
  }

  /** Putting together the first n of ss. */
  lemma ConcatTake<T>(ss: seq<seq<T>>, n: nat)
    requires 0 < n <= |ss|
    ensures Concat(ss[..n]) == Concat(ss[..n - 1]) + ss[n - 1]
  {
    assert ss[..n][..n - 1] == ss[..n - 1];
  }

  /** Span.CopyTo: src lands at dst[offset ..], nothing else in dst changes. */
  method CopyTo<T>(src: seq<T>, dst: array<T>, offset: nat)
    requires offset + |src| <= dst.Length
    modifies dst
    ensures dst[..] == Splice(old(dst[..]), offset, src)
  {
    var j := 0;
    while j < |src|
      invariant j <= |src|
      invariant dst[..] == Splice(old(dst[..]), offset, src[..j])
    {
      dst[offset + j] := src[j];
      assert src[..j + 1] == src[..j] + [src[j]];
      j := j + 1;
    }
    assert src[..|src|] == src;
  }
}

/** Generic facts about sequence concatenation and slicing, stated once so
    that the byte-level proofs can cite them instead of re-deriving them. */
module Sequences {

  /** Five appends in a row append the concatenation of the five. */
  lemma AppendFive<T>(s: seq<T>, a: seq<T>, b: seq<T>, c: seq<T>, d: seq<T>, e: seq<T>)
    ensures s + a + b + c + d + e == s + (a + b + c + d + e)
  {
    assert s + a + b == s + (a + b);
    assert s + (a + b) + c == s + (a + b + c);
    assert s + (a + b + c) + d == s + (a + b + c + d);
  }

  lemma SliceOfSlice<T>(s: seq<T>, i: nat, j: nat, a: nat, b: nat)
    requires i <= j <= |s| && a <= b <= j - i
    ensures s[i..j][a..b] == s[i + a..i + b]
  {
    var t := s[i..j];
    forall m | 0 <= m < b - a ensures t[a..b][m] == s[i + a..i + b][m] {
      assert t[a..b][m] == t[a + m];
      assert t[a + m] == s[i + a + m];
    }
  }

  /** Where each part of a five-part concatenation lies. */
  lemma FiveParts<T>(a: seq<T>, b: seq<T>, c: seq<T>, d: seq<T>, e: seq<T>)
    ensures var s := a + b + c + d + e;
      var i, j, k, l := |a|, |a| + |b|, |a| + |b| + |c|, |a| + |b| + |c| + |d|;
      && |s| == l + |e|
      && s[..i] == a && s[i..j] == b && s[j..k] == c && s[k..l] == d && s[l..|s|] == e
  {
    var s := a + b + c + d + e;
    var i, j, k, l := |a|, |a| + |b|, |a| + |b| + |c|, |a| + |b| + |c| + |d|;
    assert s[..i] == a;
    assert s[i..j] == b;
    assert s[j..k] == c;
    assert s[k..l] == d;
    assert s[l..|s|] == e;
  }

  /** Where a five-part concatenation sits at `pos` inside `s`, each part
      sits right after the previous one. */
  lemma FivePartsAt<T>(s: seq<T>, pos: nat, a: seq<T>, b: seq<T>, c: seq<T>, d: seq<T>, e: seq<T>)
    requires pos + |a + b + c + d + e| <= |s| && s[pos..pos + |a + b + c + d + e|] == a + b + c + d + e
    ensures var i := pos + |a|;
      var j := i + |b|;
      var k := j + |c|;
      var l := k + |d|;
      && s[pos..i] == a && s[i..j] == b && s[j..k] == c && s[k..l] == d && s[l..l + |e|] == e
  {
    SplitEmbedded(s, pos, a + b + c + d + e, a + b + c + d, e);
    SplitEmbedded(s, pos, a + b + c + d, a + b + c, d);
    SplitEmbedded(s, pos, a + b + c, a + b, c);
    SplitEmbedded(s, pos, a + b, a, b);
  }

  /** Two sequences with the same suffix from `from` on agree on every slice
      inside that suffix. */
  lemma SameSuffixSlice<T>(s: seq<T>, t: seq<T>, from: nat, i: nat, j: nat)
    requires from <= i <= j <= |s| == |t|
    requires s[from..] == t[from..]
    ensures s[i..j] == t[i..j]
  {
    SliceOfSlice(s, from, |s|, i - from, j - from);
    SliceOfSlice(t, from, |t|, i - from, j - from);
    assert s[from..|s|] == s[from..] && t[from..|t|] == t[from..];
  }

  /** Where `t` sits at `pos` inside `s`, every slice of `t` sits at `pos`
      shifted inside `s`. */
  lemma SliceOfEmbedded<T>(s: seq<T>, pos: nat, t: seq<T>, i: nat, j: nat)
    requires pos + |t| <= |s| && s[pos..pos + |t|] == t
    requires i <= j <= |t|
    ensures s[pos + i..pos + j] == t[i..j]
  {
    SliceOfSlice(s, pos, pos + |t|, i, j);
  }

  /** Where `t`, made of `a` then `b`, sits at `pos` inside `s`, `a` sits at
      `pos` and `b` right after it. */
  lemma SplitEmbedded<T>(s: seq<T>, pos: nat, t: seq<T>, a: seq<T>, b: seq<T>)
    requires t == a + b
    requires pos + |t| <= |s| && s[pos..pos + |t|] == t
    ensures s[pos..pos + |a|] == a
    ensures s[pos + |a|..pos + |a| + |b|] == b
  {
    SliceOfEmbedded(s, pos, t, 0, |a|);
    SliceOfEmbedded(s, pos, t, |a|, |t|);
    assert t[0..|a|] == a;
    assert t[|a|..|t|] == b;
  }

  /** The pieces `piece(x, o)` for the elements `x` of `xs`, laid end to end,
      each one made for the offset `o` where the previous one ended. */
  function Chain<X, T>(piece: (X, nat) -> seq<T>, xs: seq<X>, offset: nat): seq<T>
  {
    if xs == [] then []
    else
      var first := piece(xs[0], offset);
      first + Chain(piece, xs[1..], offset + |first|)
  }

  /** A chain splits at any boundary, the second part continuing at the
      offset where the first part ends. */
  lemma {:induction false} ChainAppend<X, T>(piece: (X, nat) -> seq<T>, a: seq<X>, b: seq<X>, offset: nat)
    ensures Chain(piece, a + b, offset)
         == Chain(piece, a, offset) + Chain(piece, b, offset + |Chain(piece, a, offset)|)
  {
    if a == [] {
      assert a + b == b;
    } else {
      var first := piece(a[0], offset);
      var next := offset + |first|;
      assert (a + b)[0] == a[0];
      assert (a + b)[1..] == a[1..] + b;
      ChainAppend(piece, a[1..], b, next);
      assert first + Chain(piece, a[1..], next) + Chain(piece, b, next + |Chain(piece, a[1..], next)|)
        == first + (Chain(piece, a[1..], next) + Chain(piece, b, next + |Chain(piece, a[1..], next)|));
    }
  }

  /** Appending one element appends its piece at the offset reached. */
  lemma ChainSnoc<X, T>(piece: (X, nat) -> seq<T>, xs: seq<X>, x: X, offset: nat)
    ensures Chain(piece, xs + [x], offset) == Chain(piece, xs, offset) + piece(x, offset + |Chain(piece, xs, offset)|)
  {
    var at := offset + |Chain(piece, xs, offset)|;
    ChainAppend(piece, xs, [x], offset);
    assert [x][1..] == [];
    assert piece(x, at) + [] == piece(x, at);
  }

  /** Where a non-empty chain sits at `pos` inside `s`, its first piece sits
      at `pos` and the chain of the rest right after it. */
  lemma ChainEmbeddedFirst<X, T>(piece: (X, nat) -> seq<T>, xs: seq<X>, s: seq<T>, pos: nat)
    requires xs != []
    requires pos + |Chain(piece, xs, pos)| <= |s| && s[pos..pos + |Chain(piece, xs, pos)|] == Chain(piece, xs, pos)
    ensures var next := pos + |piece(xs[0], pos)|;
      && next + |Chain(piece, xs[1..], next)| == pos + |Chain(piece, xs, pos)|
      && s[pos..next] == piece(xs[0], pos)
      && s[next..next + |Chain(piece, xs[1..], next)|] == Chain(piece, xs[1..], next)
  {
    var first := piece(xs[0], pos);
    SplitEmbedded(s, pos, Chain(piece, xs, pos), first, Chain(piece, xs[1..], pos + |first|));
  }
}

/** Coding a sequence block by block: full blocks first, then what is left. */
module Blocks {

  datatype Option<+A> = None | Some(value: A)

  /** Applies a block code to every block of `n` elements and to a shorter last one. */
  ghost function MapBlocks<A, B>(f: seq<A> -> seq<B>, n: nat, data: seq<A>): seq<B>
    requires n > 0
    decreases |data|
  {
    if data == [] then [] else if |data| <= n then f(data) else f(data[..n]) + MapBlocks(f, n, data[n..])
  }

  /** The same for a code that may fail on a block, and then fails on the whole. */
  ghost function TryBlocks<A, B>(g: seq<A> -> Option<seq<B>>, n: nat, data: seq<A>): Option<seq<B>>
    requires n > 0
    decreases |data|
  {
    if data == [] then Some([]) else if |data| <= n then g(data) else Join(g(data[..n]), TryBlocks(g, n, data[n..]))
  }

  ghost function Join<B>(x: Option<seq<B>>, y: Option<seq<B>>): Option<seq<B>> {
    if x.Some? && y.Some? then Some(x.value + y.value) else None
  }

  lemma MapCons<A, B>(f: seq<A> -> seq<B>, n: nat, first: seq<A>, rest: seq<A>)
    requires n > 0 && |first| == n
    ensures MapBlocks(f, n, first + rest) == f(first) + MapBlocks(f, n, rest)
  {
    if rest == [] {
      assert first + rest == first;
      assert f(first) + [] == f(first);
    } else {
      assert (first + rest)[..n] == first && (first + rest)[n..] == rest;
    }
  }

  lemma TryCons<A, B>(g: seq<A> -> Option<seq<B>>, n: nat, first: seq<A>, rest: seq<A>)
    requires n > 0 && |first| == n
    ensures TryBlocks(g, n, first + rest) == Join(g(first), TryBlocks(g, n, rest))
  {
    if rest == [] {
      assert first + rest == first;
      assert g(first).Some? ==> g(first).value + [] == g(first).value;
    } else {
      assert (first + rest)[..n] == first && (first + rest)[n..] == rest;
    }
  }

  lemma JoinAssociates<B>(x: Option<seq<B>>, y: Option<seq<B>>, z: Option<seq<B>>)
    ensures Join(Join(x, y), z) == Join(x, Join(y, z))
  {
    if x.Some? && y.Some? && z.Some? {
      assert x.value + y.value + z.value == x.value + (y.value + z.value);
    }
  }

  /** One more block, full or last, after a number of full ones. */
  lemma {:induction false} MapAppend<A, B>(f: seq<A> -> seq<B>, n: nat, xs: seq<A>, k: nat, last: seq<A>)
    requires n > 0 && |xs| == k * n && |last| <= n
    ensures MapBlocks(f, n, xs + last) == MapBlocks(f, n, xs) + (if last == [] then [] else f(last))
    decreases k
  {
    if k == 0 {
      assert xs + last == last;
    } else {
      SplitFirst(xs, n, k);
      var first, rest := xs[..n], xs[n..];
      MapAppend(f, n, rest, k - 1, last);
      assert xs == first + rest && xs + last == first + (rest + last);
      MapCons(f, n, first, rest);
      MapCons(f, n, first, rest + last);
    }
  }

  lemma {:induction false} TryAppend<A, B>(g: seq<A> -> Option<seq<B>>, n: nat, xs: seq<A>, k: nat, ys: seq<A>)
    requires n > 0 && |xs| == k * n
    ensures TryBlocks(g, n, xs + ys) == Join(TryBlocks(g, n, xs), TryBlocks(g, n, ys))
    decreases k
  {
    if k == 0 {
      assert xs + ys == ys;
      var r := TryBlocks(g, n, ys);
      assert r.Some? ==> [] + r.value == r.value;
    } else {
      SplitFirst(xs, n, k);
      var first, rest := xs[..n], xs[n..];
      TryAppend(g, n, rest, k - 1, ys);
      assert xs == first + rest && xs + ys == first + (rest + ys);
      TryCons(g, n, first, rest);
      TryCons(g, n, first, rest + ys);
      JoinAssociates(g(first), TryBlocks(g, n, rest), TryBlocks(g, n, ys));
    }
  }

  lemma SplitFirst<A>(xs: seq<A>, n: nat, k: nat)
    requires |xs| == k * n && k > 0
    ensures n <= |xs| && |xs[n..]| == (k - 1) * n
  {
    assert k * n == (k - 1) * n + n;
  }

  /** The block decoder `g` undoes the block coder `f` on blocks of up to `n` elements. */
  ghost predicate Undoes<A(!new), B>(f: seq<A> -> seq<B>, n: nat, g: seq<B> -> Option<seq<A>>, m: nat) {
    forall b: seq<A> :: 0 < |b| <= n ==> g(f(b)) == Some(b) && 0 < |f(b)| <= m && (|b| == n <==> |f(b)| == m)
  }

  lemma {:induction false} TryUndoesMap<A(!new), B>(
      f: seq<A> -> seq<B>, n: nat, g: seq<B> -> Option<seq<A>>, m: nat, data: seq<A>)
    requires n > 0 && m > 0 && Undoes(f, n, g, m)
    ensures TryBlocks(g, m, MapBlocks(f, n, data)) == Some(data)
    decreases |data|
  {
    if 0 < |data| < n {
      assert g(f(data)) == Some(data);
    } else if data != [] {
      var first, rest := data[..n], data[n..];
      assert data == first + rest;
      TryUndoesMap(f, n, g, m, rest);
      assert g(f(first)) == Some(first) && |f(first)| == m;
      MapCons(f, n, first, rest);
      TryCons(g, m, f(first), MapBlocks(f, n, rest));
    }
  }

  /** And `f` undoes `g` wherever `g` succeeds. */
  ghost predicate UndoneBy<A, B(!new)>(f: seq<A> -> seq<B>, n: nat, g: seq<B> -> Option<seq<A>>, m: nat) {
    forall e: seq<B> :: 0 < |e| <= m && g(e).Some? ==>
      var b := g(e).value; f(b) == e && 0 < |b| <= n && (|b| == n <==> |e| == m)
  }

  lemma {:induction false} MapUndoesTry<A, B(!new)>(
      f: seq<A> -> seq<B>, n: nat, g: seq<B> -> Option<seq<A>>, m: nat, enc: seq<B>)
    requires n > 0 && m > 0 && UndoneBy(f, n, g, m) && TryBlocks(g, m, enc).Some?
    ensures MapBlocks(f, n, TryBlocks(g, m, enc).value) == enc
    decreases |enc|
  {
    if 0 < |enc| < m {
      assert f(g(enc).value) == enc;
    } else if enc != [] {
      var first, rest := enc[..m], enc[m..];
      assert enc == first + rest;
      TryCons(g, m, first, rest);
      MapUndoesTry(f, n, g, m, rest);
      assert f(g(first).value) == first && |g(first).value| == n;
      MapCons(f, n, g(first).value, TryBlocks(g, m, rest).value);
    }
  }

  /** The same for a decoder that never fails. */
  lemma {:induction false} MapUndoesMap<A(!new), B>(
      f: seq<A> -> seq<B>, n: nat, g: seq<B> -> seq<A>, m: nat, data: seq<A>)
    requires n > 0 && m > 0
    requires forall b: seq<A> :: 0 < |b| <= n ==> g(f(b)) == b && 0 < |f(b)| <= m && (|b| == n <==> |f(b)| == m)
    ensures MapBlocks(g, m, MapBlocks(f, n, data)) == data
    decreases |data|
  {
    if 0 < |data| < n {
      assert g(f(data)) == data;
    } else if data != [] {
      var first, rest := data[..n], data[n..];
      assert data == first + rest;
      MapUndoesMap(f, n, g, m, rest);
      assert g(f(first)) == first && |f(first)| == m;
      MapCons(f, n, first, rest);
      MapCons(g, m, f(first), MapBlocks(f, n, rest));
    }
  }
}

/**
 * `Array.prototype.filter` on sequences, and a description of its result in terms of
 * the positions of the input that it keeps: which ones, in which order.
 */
module Selection {

  /** `s.filter(p)`. */
  function Filter<T(==,!new)>(s: seq<T>, p: T -> bool): (r: seq<T>)
    ensures |r| <= |s|
    ensures forall x :: x in r <==> x in s && p(x)
  {
    if s == [] then []
    else if p(s[0]) then [s[0]] + Filter(s[1..], p)
    else Filter(s[1..], p)
  }

  /** The conjunction of two tests, as a filter applied after another filter sees it. */
  function Both<T>(p: T -> bool, q: T -> bool): T -> bool {
    x => p(x) && q(x)
  }

  /**
   * `r` is the subsequence of `s` at the strictly increasing positions `pos`,
   * and `pos` holds every position of `s` whose element passes `p`, and only those.
   */
  ghost predicate StableSelection<T>(r: seq<T>, s: seq<T>, p: T -> bool, pos: seq<nat>) {
    && |pos| == |r|
    && (forall k :: 0 <= k < |pos| ==> pos[k] < |s| && r[k] == s[pos[k]] && p(s[pos[k]]))
    && (forall k, l :: 0 <= k < l < |pos| ==> pos[k] < pos[l])
    && (forall i :: 0 <= i < |s| && p(s[i]) ==> i in pos)
  }

  function Shifted(q: seq<nat>): (r: seq<nat>)
    ensures |r| == |q|
    ensures forall k :: 0 <= k < |q| ==> r[k] == q[k] + 1
  {
    seq(|q|, k requires 0 <= k < |q| => q[k] + 1)
  }

  /** The positions of `s` whose element passes `p`, in increasing order. */
  ghost function Positions<T>(s: seq<T>, p: T -> bool): seq<nat> {
    if s == [] then []
    else (if p(s[0]) then [0] else []) + Shifted(Positions(s[1..], p))
  }

  /** A selection from `s[1..]` is, shifted by one, a selection from `s` when `s[0]` fails `p`. */
  lemma SelectionSkip<T>(r: seq<T>, s: seq<T>, p: T -> bool, pos: seq<nat>)
    requires s != [] && !p(s[0])
    requires StableSelection(r, s[1..], p, pos)
    ensures StableSelection(r, s, p, Shifted(pos))
  {
    var sh := Shifted(pos);
    forall i | 0 <= i < |s| && p(s[i])
      ensures i in sh
    {
      assert s[1..][i - 1] == s[i];
      var k :| 0 <= k < |pos| && pos[k] == i - 1;
      assert sh[k] == i;
    }
  }

  /** A selection from `s[1..]` is, shifted by one and led by `s[0]`, a selection from `s` when `s[0]` passes `p`. */
  lemma SelectionKeep<T>(r: seq<T>, s: seq<T>, p: T -> bool, pos: seq<nat>)
    requires s != [] && p(s[0])
    requires StableSelection(r, s[1..], p, pos)
    ensures StableSelection([s[0]] + r, s, p, [0] + Shifted(pos))
  {
    KeepPicks(r, s, p, pos);
    KeepOrders(pos);
    KeepCovers(r, s, p, pos);
  }

  lemma KeepOrders(pos: seq<nat>)
    requires forall k, l :: 0 <= k < l < |pos| ==> pos[k] < pos[l]
    ensures var all := [0] + Shifted(pos);
      forall k, l :: 0 <= k < l < |all| ==> all[k] < all[l]
  {
    var all := [0] + Shifted(pos);
    forall k, l | 0 <= k < l < |all|
      ensures all[k] < all[l]
    {
      if k > 0 {
        assert all[k] == pos[k - 1] + 1 && all[l] == pos[l - 1] + 1;
      }
    }
  }

  lemma KeepPicks<T>(r: seq<T>, s: seq<T>, p: T -> bool, pos: seq<nat>)
    requires s != [] && p(s[0])
    requires StableSelection(r, s[1..], p, pos)
    ensures var all, rr := [0] + Shifted(pos), [s[0]] + r;
      forall k :: 0 <= k < |all| ==> all[k] < |s| && rr[k] == s[all[k]] && p(s[all[k]])
  {
    var all, rr := [0] + Shifted(pos), [s[0]] + r;
    forall k | 0 <= k < |all|
      ensures all[k] < |s| && rr[k] == s[all[k]] && p(s[all[k]])
    {
      if k > 0 {
        assert all[k] == pos[k - 1] + 1;
        assert s[1..][pos[k - 1]] == s[all[k]];
      }
    }
  }

  lemma KeepCovers<T>(r: seq<T>, s: seq<T>, p: T -> bool, pos: seq<nat>)
    requires s != [] && p(s[0])
    requires StableSelection(r, s[1..], p, pos)
    ensures forall i :: 0 <= i < |s| && p(s[i]) ==> i in [0] + Shifted(pos)
  {
    var all := [0] + Shifted(pos);
    forall i | 0 <= i < |s| && p(s[i])
      ensures i in all
    {
      if i > 0 {
        assert s[1..][i - 1] == s[i];
        var k :| 0 <= k < |pos| && pos[k] == i - 1;
        assert all[k + 1] == i;
      }
    }
  }

  /** `Filter` keeps exactly the passing elements, in their input order. */
  lemma {:induction false} FilterIsStableSelection<T(!new)>(s: seq<T>, p: T -> bool)
    ensures StableSelection(Filter(s, p), s, p, Positions(s, p))
  {
    if s != [] {
      FilterIsStableSelection(s[1..], p);
      if p(s[0]) {
        SelectionKeep(Filter(s[1..], p), s, p, Positions(s[1..], p));
      } else {
        SelectionSkip(Filter(s[1..], p), s, p, Positions(s[1..], p));
      }
    }
  }

  /** The composition of two position maps. */
  ghost function Compose(pos: seq<nat>, inner: seq<nat>): (r: seq<nat>)
    ensures |r| == |inner|
    ensures forall k :: 0 <= k < |inner| && inner[k] < |pos| ==> r[k] == pos[inner[k]]
  {
    seq(|inner|, k requires 0 <= k < |inner| => if inner[k] < |pos| then pos[inner[k]] else 0)
  }

  /** Filtering by `q` after filtering by `p` selects what `p && q` selects, stably. */
  lemma SelectionCompose<T>(f: seq<T>, s: seq<T>, p: T -> bool, pos: seq<nat>,
                            g: seq<T>, q: T -> bool, inner: seq<nat>)
    requires StableSelection(f, s, p, pos)
    requires StableSelection(g, f, q, inner)
    ensures StableSelection(g, s, Both(p, q), Compose(pos, inner))
  {
    var c := Compose(pos, inner);
    forall i | 0 <= i < |s| && Both(p, q)(s[i])
      ensures i in c
    {
      var k :| 0 <= k < |pos| && pos[k] == i;
      assert f[k] == s[i];
      var l :| 0 <= l < |inner| && inner[l] == k;
      assert c[l] == i;
    }
  }
}

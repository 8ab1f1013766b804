// The slice lifecycle shared by both particle games: every frame, each wave
// and each particle is advanced in place, and expired entries are spliced out
// with `s = append(s[:i], s[i+1:]...)` followed by `i--`. New particles are
// appended wave by wave.
module Slices {

  datatype Option<T> = None | Some(value: T)

  /** `a` occurs in `b` in order: `a` is `b` with some entries dropped. */
  ghost predicate Embedded<T>(a: seq<T>, b: seq<T>)
    decreases |b|
  {
    |a| == 0 ||
    (|b| > 0 &&
     ((a[|a| - 1] == b[|b| - 1] && Embedded(a[..|a| - 1], b[..|b| - 1])) ||
      Embedded(a, b[..|b| - 1])))
  }

  /** Every entry advanced by `step`, without removing anything. */
  function Advanced<T>(s: seq<T>, step: T -> T): (r: seq<T>)
    ensures |r| == |s|
    ensures forall i :: 0 <= i < |s| ==> r[i] == step(s[i])
  {
    seq(|s|, i requires 0 <= i < |s| => step(s[i]))
  }

  /** Advancing a slice advances its prefix and then its last entry. */
  lemma AdvancedLast<T>(s: seq<T>, step: T -> T)
    requires |s| > 0
    ensures Advanced(s, step) == Advanced(s[..|s| - 1], step) + [step(s[|s| - 1])]
  {
    var init := s[..|s| - 1];
    assert forall i :: 0 <= i < |init| ==> init[i] == s[i];
  }

  /** The slice after one pass of the advance-and-splice loop: every entry is
      advanced by `step`, the ones that are `expired` afterwards are gone. */
  function Sweep<T>(s: seq<T>, step: T -> T, expired: T -> bool): (r: seq<T>)
    ensures |r| <= |s|
    ensures forall t :: t in r ==> !expired(t)
  {
    if |s| == 0 then []
    else
      var t := step(s[|s| - 1]);
      Sweep(s[..|s| - 1], step, expired) + (if expired(t) then [] else [t])
  }

  /** The splice loop of the source: index `i` walks the slice, the entry at
      `i` is advanced, and an expired entry is cut out and `i` stepped back so
      that the entry that moved into its place is visited next. */
  method Splice<T>(s: seq<T>, step: T -> T, expired: T -> bool) returns (r: seq<T>)
    ensures r == Sweep(s, step, expired)
  {
    r := s;
    var i := 0;
    ghost var k := 0;  // entries of `s` visited so far
    while i < |r|
      invariant 0 <= i <= |r| && 0 <= k <= |s| && |r| - i == |s| - k
      invariant r[..i] == Sweep(s[..k], step, expired)
      invariant r[i..] == s[k..]
      decreases |r| - i
    {
      assert s[..k + 1][..k] == s[..k];
      assert r[i] == s[k];
      r := r[i := step(r[i])];
      if expired(r[i]) {
        r := r[..i] + r[i + 1..];
        i := i - 1;
      }
      i := i + 1;
      k := k + 1;
    }
    assert s[..k] == s;
  }

  /** An entry survives the sweep exactly when it is the advanced form of some
      entry of the input that has not expired. */
  lemma {:induction false} SweepMembers<T>(s: seq<T>, step: T -> T, expired: T -> bool, t: T)
    ensures t in Sweep(s, step, expired) <==>
            exists i :: 0 <= i < |s| && t == step(s[i]) && !expired(t)
  {
    if |s| > 0 {
      var init := s[..|s| - 1];
      var u := step(s[|s| - 1]);
      var kept: seq<T> := if expired(u) then [] else [u];
      SweepMembers(init, step, expired, t);
      assert Sweep(s, step, expired) == Sweep(init, step, expired) + kept;
      assert t in Sweep(s, step, expired) <==> t in Sweep(init, step, expired) || t in kept;
      if exists i :: 0 <= i < |s| && t == step(s[i]) && !expired(t) {
        var i :| 0 <= i < |s| && t == step(s[i]) && !expired(t);
        if i < |s| - 1 {
          assert init[i] == s[i];
        }
      }
      if exists i :: 0 <= i < |init| && t == step(init[i]) && !expired(t) {
        var i :| 0 <= i < |init| && t == step(init[i]) && !expired(t);
        assert s[i] == init[i];
      }
    }
  }

  /** The survivors keep their relative order: the sweep is the advanced slice
      with entries dropped, never reordered or duplicated. */
  lemma {:induction false} SweepKeepsOrder<T>(s: seq<T>, step: T -> T, expired: T -> bool)
    ensures Embedded(Sweep(s, step, expired), Advanced(s, step))
  {
    if |s| > 0 {
      var init := s[..|s| - 1];
      var t := step(s[|s| - 1]);
      var a := Sweep(init, step, expired);
      var b := Advanced(init, step);
      SweepKeepsOrder(init, step, expired);
      assert Advanced(s, step) == b + [t];
      assert (b + [t])[..|b|] == b;
      if expired(t) {
        assert Sweep(s, step, expired) == a;
        if |a| > 0 {
          assert Embedded(a, b + [t]);
        }
      } else {
        assert Sweep(s, step, expired) == a + [t];
        assert (a + [t])[..|a|] == a;
        assert Embedded(a + [t], b + [t]);
      }
    }
  }

  /** The sweep keeps every advanced, unexpired value exactly as often as
      the advanced slice holds it, and no expired value at all: together with
      SweepKeepsOrder this pins the survivors down, duplicates included. */
  lemma {:induction false} SweepCount<T>(s: seq<T>, step: T -> T, expired: T -> bool, t: T)
    ensures multiset(Sweep(s, step, expired))[t] == if expired(t) then 0 else multiset(Advanced(s, step))[t]
  {
    if |s| > 0 {
      var init := s[..|s| - 1];
      var u := step(s[|s| - 1]);
      var kept: seq<T> := if expired(u) then [] else [u];
      SweepCount(init, step, expired, t);
      assert Sweep(s, step, expired) == Sweep(init, step, expired) + kept;
      assert multiset(Sweep(s, step, expired)) == multiset(Sweep(init, step, expired)) + multiset(kept);
      AdvancedLast(s, step);
      assert multiset(Advanced(s, step)) == multiset(Advanced(init, step)) + multiset{u};
    }
  }

  /** An entry whose advanced form does not expire is never dropped: when
      nothing expires the sweep only advances. */
  lemma {:induction false} SweepNoneExpired<T>(s: seq<T>, step: T -> T, expired: T -> bool)
    requires forall i :: 0 <= i < |s| ==> !expired(step(s[i]))
    ensures Sweep(s, step, expired) == Advanced(s, step)
  {
    if |s| > 0 {
      var init := s[..|s| - 1];
      SweepNoneExpired(init, step, expired);
      assert Advanced(s, step) == Advanced(init, step) + [step(s[|s| - 1])];
    }
  }

  /** Particles emitted by one wave from candidates `0 .. k-1` of `n`. */
  function Emitted<W, P>(w: W, n: int, k: nat, emit: (W, int, int) -> Option<P>): (r: seq<P>)
    ensures |r| <= k
  {
    if k == 0 then []
    else
      var last := match emit(w, k - 1, n) case Some(p) => [p] case None => [];
      Emitted(w, n, k - 1, emit) + last
  }

  /** Every particle a wave emits is one of its first `k` candidates. */
  lemma {:induction false} EmittedOrigin<W, P>(w: W, n: int, k: nat, emit: (W, int, int) -> Option<P>, p: P)
    requires p in Emitted(w, n, k, emit)
    ensures exists j :: 0 <= j < k && emit(w, j, n) == Some(p)
  {
    if p in Emitted(w, n, k - 1, emit) {
      EmittedOrigin(w, n, k - 1, emit, p);
    } else {
      assert emit(w, k - 1, n) == Some(p);
    }
  }

  /** Go's `for j := 0; j < n; j++` runs `n` times, or not at all for `n <= 0`. */
  function Runs(n: int): (k: nat)
    ensures n <= 0 ==> k == 0
    ensures n >= 0 ==> k == n
  {
    if n < 0 then 0 else n
  }

  /** Particles emitted by all waves of `ws`, in wave order; wave `w` tries
      `quota(w)` candidates. */
  function SpawnAll<W, P>(ws: seq<W>, quota: W -> int, emit: (W, int, int) -> Option<P>): seq<P>
  {
    if |ws| == 0 then []
    else
      var w := ws[|ws| - 1];
      SpawnAll(ws[..|ws| - 1], quota, emit) + Emitted(w, quota(w), Runs(quota(w)), emit)
  }

  /** Each spawned particle came from one of the waves and one of its first
      `quota` candidates. */
  lemma {:induction false} SpawnOrigin<W, P>(ws: seq<W>, quota: W -> int, emit: (W, int, int) -> Option<P>, p: P)
    requires p in SpawnAll(ws, quota, emit)
    ensures exists i, j :: 0 <= i < |ws| && 0 <= j < quota(ws[i]) && emit(ws[i], j, quota(ws[i])) == Some(p)
  {
    var init := ws[..|ws| - 1];
    var w := ws[|ws| - 1];
    if p in SpawnAll(init, quota, emit) {
      SpawnOrigin(init, quota, emit, p);
      var i, j :| 0 <= i < |init| && 0 <= j < quota(init[i]) && emit(init[i], j, quota(init[i])) == Some(p);
      assert ws[i] == init[i];
    } else {
      EmittedOrigin(w, quota(w), Runs(quota(w)), emit, p);
      var j :| 0 <= j < Runs(quota(w)) && emit(w, j, quota(w)) == Some(p);
      assert 0 <= |ws| - 1 < |ws| && 0 <= j < quota(ws[|ws| - 1]);
    }
  }

  /** The nested spawn loop of the source: for every wave, try its `quota`
      candidates in order and append the ones `emit` accepts to `ps0`. */
  method Spawn<W, P>(ws: seq<W>, quota: W -> int, emit: (W, int, int) -> Option<P>, ps0: seq<P>)
    returns (ps: seq<P>)
    ensures ps == ps0 + SpawnAll(ws, quota, emit)
  {
    ps := ps0;
    for i := 0 to |ws|
      invariant ps == ps0 + SpawnAll(ws[..i], quota, emit)
    {
      ps := EmitWave(ws[i], quota(ws[i]), emit, ps);
      assert ws[..i + 1][..i] == ws[..i];
    }
    assert ws[..|ws|] == ws;
  }

  /** The inner loop of the spawn: candidates `0 .. n-1` of wave `w`, in
      order, each appended to `ps` when `emit` accepts it. */
  method EmitWave<W, P>(w: W, n: int, emit: (W, int, int) -> Option<P>, ps0: seq<P>)
    returns (ps: seq<P>)
    ensures ps == ps0 + Emitted(w, n, Runs(n), emit)
  {
    ps := ps0;
    var j := 0;
    while j < n
      invariant 0 <= j <= Runs(n)
      invariant ps == ps0 + Emitted(w, n, j, emit)
    {
      match emit(w, j, n) {
        case Some(p) => ps := ps + [p];
        case None =>
      }
      j := j + 1;
    }
  }
}

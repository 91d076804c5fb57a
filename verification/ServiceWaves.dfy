/** Start-up waves of init/svcmgr.c: a repeat-until-unchanged loop against dependency chains and cycles. */
module ServiceWaves {

  datatype Service = Service(name: string, deps: seq<string>)

  // ---------- the dependency graph ----------

  /** The first service of that name from index i on, -1 if there is none. */
  function Resolve(s: seq<Service>, name: string, i: nat): int
    decreases |s| - i
  {
    if i >= |s| then -1 else if s[i].name == name then i else Resolve(s, name, i + 1)
  }

  /** Entry k of the dependency list of i is a known service j. */
  ghost predicate Names(s: seq<Service>, i: int, k: int, j: int)
  {
    0 <= i < |s| && 0 <= k < |s[i].deps| && s[i].deps[k] != "kernel" && 0 <= j && Resolve(s, s[i].deps[k], 0) == j
  }

  ghost predicate Edge(s: seq<Service>, i: int, j: int) { exists k :: Names(s, i, k, j) }

  lemma {:induction false} ResolveRange(s: seq<Service>, name: string, i: nat)
    ensures -1 <= Resolve(s, name, i) < |s|
    decreases |s| - i
  {
    if i < |s| && s[i].name != name { ResolveRange(s, name, i + 1); }
  }

  lemma EdgeRange(s: seq<Service>, i: int, j: int)
    requires Edge(s, i, j)
    ensures 0 <= i < |s| && 0 <= j < |s|
  {
    var k :| Names(s, i, k, j);
    ResolveRange(s, s[i].deps[k], 0);
  }

  /** Each service of p depends on the next. */
  ghost predicate Chain(s: seq<Service>, p: seq<int>)
  {
    p != [] && 0 <= p[0] < |s| && forall k | 0 <= k < |p| - 1 :: Edge(s, p[k], p[k + 1])
  }

  ghost predicate Cycle(s: seq<Service>, p: seq<int>) { Chain(s, p) && |p| > 1 && p[0] == p[|p| - 1] }

  lemma ChainRange(s: seq<Service>, p: seq<int>, k: nat)
    requires Chain(s, p) && k < |p|
    ensures 0 <= p[k] < |s|
  {
    if k > 0 {
      assert Edge(s, p[k - 1], p[k - 1 + 1]);
      EdgeRange(s, p[k - 1], p[k]);
    }
  }

  // ---------- waves ----------

  /** A service with a wave comes right after the latest of its dependencies. */
  ghost predicate Follows(s: seq<Service>, w: seq<int>, i: int)
    requires |w| == |s| && 0 <= i < |s|
  {
    && (forall j | Edge(s, i, j) && j < |w| :: 0 <= w[j] < w[i])
    && (w[i] == 0 || exists j :: 0 <= j < |w| && Edge(s, i, j) && w[j] == w[i] - 1)
  }

  ghost predicate Settled(s: seq<Service>, w: seq<int>)
  {
    |w| == |s| && forall i | 0 <= i < |s| && w[i] >= 0 :: Follows(s, w, i)
  }

  /** Some dependency of i has no wave. */
  ghost predicate Waits(s: seq<Service>, w: seq<int>, i: int) { exists j :: 0 <= j < |w| && Edge(s, i, j) && w[j] < 0 }

  /** A service without a wave waits for another one. */
  ghost predicate Stuck(s: seq<Service>, w: seq<int>)
    requires |w| == |s|
  {
    forall i {:trigger Waits(s, w, i)} | 0 <= i < |s| && w[i] < 0 :: Waits(s, w, i)
  }

  /** Along a chain the wave falls. */
  lemma {:induction false} Falls(s: seq<Service>, w: seq<int>, p: seq<int>)
    requires Settled(s, w) && Chain(s, p) && w[p[0]] >= 0
    ensures w[p[0]] >= |p| - 1 && (|p| > 1 && 0 <= p[|p| - 1] < |w| ==> w[p[|p| - 1]] < w[p[0]])
    decreases |p|
  {
    if |p| > 1 {
      assert Edge(s, p[0], p[0 + 1]);
      EdgeRange(s, p[0], p[1]);
      assert Follows(s, w, p[0]);
      var q := p[1..];
      forall k | 0 <= k < |q| - 1 ensures Edge(s, q[k], q[k + 1]) { assert Edge(s, p[k + 1], p[k + 1 + 1]); }
      Falls(s, w, q);
    }
  }

  /** A chain as long as the wave says. */
  lemma {:induction false} Descent(s: seq<Service>, w: seq<int>, i: int) returns (p: seq<int>)
    requires Settled(s, w) && 0 <= i < |s| && w[i] >= 0
    ensures Chain(s, p) && p[0] == i && |p| == w[i] + 1 && forall k | 0 <= k < |p| :: 0 <= p[k] < |w| && w[p[k]] == w[i] - k
    decreases w[i]
  {
    if w[i] == 0 {
      p := [i];
    } else {
      assert Follows(s, w, i);
      var j :| 0 <= j < |w| && Edge(s, i, j) && w[j] == w[i] - 1;
      var q := Descent(s, w, j);
      p := [i] + q;
      forall k | 0 <= k < |p| - 1 ensures Edge(s, p[k], p[k + 1]) { if k > 0 { assert Edge(s, q[k - 1], q[k - 1 + 1]); } }
    }
  }

  /** At most n different numbers are below n. */
  lemma {:induction false} AllDifferent(p: seq<int>, n: nat)
    requires (forall k | 0 <= k < |p| :: 0 <= p[k] < n) && forall i, j | 0 <= i < j < |p| :: p[i] != p[j]
    ensures |p| <= n
    decreases n
  {
    if p != [] {
      var m := |p| - 1;
      var last := p[m];
      var q := seq(m, k requires 0 <= k < m => if p[k] == n - 1 then last else p[k]);
      forall k | 0 <= k < m ensures 0 <= q[k] < n - 1 { assert p[k] != last; }
      forall i, j | 0 <= i < j < m ensures q[i] != q[j] { assert p[i] != p[j] && p[i] != last && p[j] != last; }
      AllDifferent(q, n - 1);
    }
  }

  /** Waves are below the number of services. */
  lemma WaveBound(s: seq<Service>, w: seq<int>, i: int)
    requires Settled(s, w) && 0 <= i < |s| && w[i] >= 0
    ensures w[i] < |s|
  {
    var p := Descent(s, w, i);
    forall a, b | 0 <= a < b < |p| ensures p[a] != p[b] { assert w[p[a]] == w[i] - a && w[p[b]] == w[i] - b; }
    AllDifferent(p, |s|);
  }

  /** All settled: a wave is the length of the longest chain below the service, and there is no cycle. */
  lemma Longest(s: seq<Service>, w: seq<int>, i: int)
    requires Settled(s, w) && 0 <= i < |s| && forall k | 0 <= k < |s| :: w[k] >= 0
    ensures exists p :: Chain(s, p) && p[0] == i && |p| == w[i] + 1
    ensures forall p | Chain(s, p) && p[0] == i :: |p| <= w[i] + 1 && !Cycle(s, p)
  {
    var p := Descent(s, w, i);
    forall q | Chain(s, q) && q[0] == i ensures |q| <= w[i] + 1 && !Cycle(s, q) { Falls(s, w, q); }
  }

  /** A walk among services without a wave. */
  lemma {:induction false} Walk(s: seq<Service>, w: seq<int>, i: int, n: nat) returns (p: seq<int>)
    requires |w| == |s| && Stuck(s, w) && 0 <= i < |s| && w[i] < 0
    ensures Chain(s, p) && p[0] == i && |p| == n + 1
    decreases n
  {
    if n == 0 {
      p := [i];
    } else {
      assert Waits(s, w, i);
      var j :| 0 <= j < |w| && Edge(s, i, j) && w[j] < 0;
      var q := Walk(s, w, j, n - 1);
      p := [i] + q;
      forall k | 0 <= k < |p| - 1 ensures Edge(s, p[k], p[k + 1]) { if k > 0 { assert Edge(s, q[k - 1], q[k - 1 + 1]); } }
    }
  }

  /** Stuck with services left: there is a cycle. */
  lemma StuckCycle(s: seq<Service>, w: seq<int>, i: int)
    requires |w| == |s| && Stuck(s, w) && 0 <= i < |s| && w[i] < 0
    ensures HasCycle(s)
  {
    var p := Walk(s, w, i, |s|);
    forall k | 0 <= k < |p| ensures 0 <= p[k] < |s| { ChainRange(s, p, k); }
    if forall a, b | 0 <= a < b < |p| :: p[a] != p[b] { AllDifferent(p, |s|); }
    var a, b :| 0 <= a < b < |p| && p[a] == p[b];
    var c := p[a..b + 1];
    forall k | 0 <= k < |c| - 1 ensures Edge(s, c[k], c[k + 1]) { assert Edge(s, p[a + k], p[a + k + 1]); }
    assert Cycle(s, c);
  }

  // ---------- svc_find and compute_waves ----------

  method Find(s: seq<Service>, name: string) returns (r: int)
    ensures r == Resolve(s, name, 0)
  {
    var i := 0;
    while i < |s|
      invariant 0 <= i <= |s| && Resolve(s, name, 0) == Resolve(s, name, i)
    {
      if s[i].name == name { return i; }
      i := i + 1;
    }
    r := -1;
  }

  /** The dependencies of i named before entry n have waves, at most max; max is one of them, or -1. */
  ghost predicate Scanned(s: seq<Service>, w: seq<int>, i: int, n: nat, max: int)
    requires |w| == |s|
  {
    && -1 <= max && (forall k, j | k < n && Names(s, i, k, j) && j < |w| :: 0 <= w[j] <= max)
    && (max == -1 || exists j :: 0 <= j < |w| && Edge(s, i, j) && w[j] == max)
  }

  lemma ScannedNext(s: seq<Service>, w: seq<int>, i: int, n: nat, max: int, j: int, new_: int)
    requires |w| == |s| && Scanned(s, w, i, n, max) && 0 <= i < |s| && n < |s[i].deps|
    requires if s[i].deps[n] == "kernel" then j == -1 else j == Resolve(s, s[i].deps[n], 0)
    requires j < |w| && (j >= 0 ==> w[j] >= 0) && new_ == if j >= 0 && w[j] > max then w[j] else max
    ensures Scanned(s, w, i, n + 1, new_)
  {
    if j >= 0 { assert Names(s, i, n, j); }
    if max != -1 { var m :| 0 <= m < |w| && Edge(s, i, m) && w[m] == max; }
  }

  /** The inner loop of compute_waves for service i. */
  method Scan(s: seq<Service>, wave: array<int>, i: nat) returns (allDone: bool, max: int)
    requires wave.Length == |s| && i < |s|
    ensures !allDone ==> Waits(s, wave[..], i)
    ensures allDone ==> Scanned(s, wave[..], i, |s[i].deps|, max)
  {
    allDone, max := true, -1;
    var j := 0;
    while j < |s[i].deps|
      invariant 0 <= j <= |s[i].deps| && Scanned(s, wave[..], i, j, max)
    {
      var di := -1;
      if s[i].deps[j] != "kernel" {
        di := Find(s, s[i].deps[j]);
        ResolveRange(s, s[i].deps[j], 0);
        if di >= 0 && wave[di] < 0 {
          assert Names(s, i, j, di);
          assert wave[..][di] < 0;
          return false, max;
        }
      }
      ghost var was := max;
      if di >= 0 && wave[di] > max { max := wave[di]; }
      ScannedNext(s, wave[..], i, j, was, di, max);
      j := j + 1;
    }
  }

  /** Giving i the wave after its dependencies keeps the others settled. */
  lemma Assigned(s: seq<Service>, w: seq<int>, i: int, max: int, v: seq<int>)
    requires Settled(s, w) && 0 <= i < |s| && w[i] < 0 && Scanned(s, w, i, |s[i].deps|, max) && v == w[i := max + 1]
    ensures Settled(s, v) && max + 1 < |s|
  {
    forall k | 0 <= k < |s| && v[k] >= 0 ensures Follows(s, v, k) {
      if k == i {
        forall j | Edge(s, i, j) && j < |v| ensures 0 <= v[j] < v[i] {
          var m :| Names(s, i, m, j);
          assert 0 <= w[j] <= max;
        }
        if max >= 0 {
          var j :| 0 <= j < |w| && Edge(s, i, j) && w[j] == max;
          assert v[j] == v[i] - 1;
        }
      } else {
        assert Follows(s, w, k);
        if w[k] > 0 {
          var j :| 0 <= j < |w| && Edge(s, k, j) && w[j] == w[k] - 1;
          assert v[j] == v[k] - 1;
        }
      }
    }
    WaveBound(s, v, i);
  }

  /** How many services have no wave. */
  ghost function Left(w: seq<int>): nat
  {
    if w == [] then 0 else Left(w[..|w| - 1]) + if w[|w| - 1] < 0 then 1 else 0
  }

  lemma {:induction false} LeftFalls(w: seq<int>, i: nat, x: int)
    requires i < |w| && w[i] < 0 && x >= 0
    ensures Left(w[i := x]) < Left(w)
  {
    var n := |w| - 1;
    if i < n {
      LeftFalls(w[..n], i, x);
      assert w[i := x][..n] == w[..n][i := x];
    } else {
      assert w[i := x][..n] == w[..n];
    }
  }

  /** m is the largest wave given out, 0 if none was. */
  ghost predicate Largest(w: seq<int>, m: int)
  {
    0 <= m && (forall i | 0 <= i < |w| :: w[i] <= m) && (m == 0 || exists i :: 0 <= i < |w| && w[i] == m)
  }

  lemma LargestNext(w: seq<int>, i: nat, x: int, m: int)
    requires Largest(w, m) && i < |w| && w[i] < 0 && x >= 0
    ensures Largest(w[i := x], if x > m then x else m)
  {
    var v := w[i := x];
    if x > m {
      assert v[i] == x;
    } else if m > 0 {
      var k :| 0 <= k < |w| && w[k] == m;
      assert v[k] == m;
    }
  }

  /** The first n services have waves, or wait. */
  ghost predicate StuckBelow(s: seq<Service>, w: seq<int>, n: nat)
    requires |w| == |s|
  {
    forall i {:trigger Waits(s, w, i)} | 0 <= i < n && i < |s| && w[i] < 0 :: Waits(s, w, i)
  }

  /** Service i is given a wave, if all its dependencies have one. */
  method Visit(s: seq<Service>, wave: array<int>, i: nat, maxWave: int) returns (done: bool, m: int)
    requires wave.Length == |s| <= 64 && i < |s| && wave[i] < 0 && Settled(s, wave[..]) && Largest(wave[..], maxWave)
    modifies wave
    ensures Settled(s, wave[..]) && Largest(wave[..], m)
    ensures if done then Left(wave[..]) < Left(old(wave[..])) else wave[..] == old(wave[..]) && Waits(s, wave[..], i)
  {
    var max;
    done, max := Scan(s, wave, i);
    m := maxWave;
    if done {
      ghost var w := wave[..];
      Assigned(s, w, i, max, w[i := max + 1]);
      LeftFalls(w, i, max + 1);
      LargestNext(w, i, max + 1, maxWave);
      var next: int8 := max + 1;
      wave[i] := next;
      assert wave[..] == w[i := max + 1];
      if next > m { m := next; }
    }
  }

  type int8 = x: int | -128 <= x < 128

  /** One turn of the outer loop of compute_waves. */
  method Pass(s: seq<Service>, wave: array<int>, maxWave: int) returns (changed: bool, m: int)
    requires wave.Length == |s| <= 64 && Settled(s, wave[..]) && Largest(wave[..], maxWave)
    modifies wave
    ensures Settled(s, wave[..]) && Largest(wave[..], m)
    ensures if changed then Left(wave[..]) < Left(old(wave[..])) else wave[..] == old(wave[..]) && Stuck(s, wave[..])
  {
    changed, m := false, maxWave;
    var i := 0;
    while i < |s|
      invariant 0 <= i <= |s| && Settled(s, wave[..]) && Largest(wave[..], m)
      invariant if changed then Left(wave[..]) < Left(old(wave[..])) else wave[..] == old(wave[..]) && StuckBelow(s, wave[..], i)
    {
      if wave[i] < 0 {
        var done;
        done, m := Visit(s, wave, i, m);
        if done { changed := true; }
      }
      i := i + 1;
    }
  }

  /** The repeat-until-unchanged loop of compute_waves. */
  method Settle(s: seq<Service>, wave: array<int>) returns (maxWave: int)
    requires wave.Length == |s| <= 64 && forall i | 0 <= i < |s| :: wave[i] == -1
    modifies wave
    ensures Settled(s, wave[..]) && Largest(wave[..], maxWave) && Stuck(s, wave[..])
  {
    var changed := true;
    maxWave := 0;
    while changed
      invariant Settled(s, wave[..]) && Largest(wave[..], maxWave) && (!changed ==> Stuck(s, wave[..]))
      decreases Left(wave[..]), changed
    {
      changed, maxWave := Pass(s, wave, maxWave);
    }
  }

  /** The last loop of compute_waves: a service without a wave, -1 if there is none. */
  method Leftover(wave: array<int>) returns (r: int)
    ensures r == -1 ==> forall i | 0 <= i < wave.Length :: wave[i] >= 0
    ensures r != -1 ==> 0 <= r < wave.Length && wave[r] < 0
  {
    r := 0;
    while r < wave.Length
      invariant 0 <= r <= wave.Length && forall k | 0 <= k < r :: wave[k] >= 0
    {
      if wave[r] < 0 { return; }
      r := r + 1;
    }
    r := -1;
  }

  ghost predicate HasCycle(s: seq<Service>) { exists c :: Cycle(s, c) }

  /** compute_waves: -1 exactly if there is a dependency cycle; else every service has its wave and all are below the result. */
  method ComputeWaves(s: seq<Service>, wave: array<int>) returns (r: int)
    requires wave.Length == |s| <= 64
    modifies wave
    ensures r == -1 <==> HasCycle(s)
    ensures r != -1 ==> Settled(s, wave[..]) && Largest(wave[..], r - 1) && forall i | 0 <= i < |s| :: 0 <= wave[i]
  {
    var i := 0;
    while i < |s|
      invariant 0 <= i <= |s| && forall k | 0 <= k < i :: wave[k] == -1
    {
      wave[i] := -1;
      i := i + 1;
    }
    var maxWave := Settle(s, wave);
    var left := Leftover(wave);
    if left != -1 {
      StuckCycle(s, wave[..], left);
      return -1;
    }
    NoCycle(s, wave[..]);
    r := maxWave + 1;
  }

  lemma NoCycle(s: seq<Service>, w: seq<int>)
    requires Settled(s, w) && forall k | 0 <= k < |s| :: w[k] >= 0
    ensures !HasCycle(s)
  {
    forall c | Chain(s, c) ensures !Cycle(s, c) { Falls(s, w, c); }
  }

  // ---------- launch_wave ----------

  const NEW := 0

  /** Service i is of a wave below n, or of wave n and before index k. */
  ghost predicate Before(w: seq<int>, i: int, n: int, k: int) { 0 <= i < |w| && (w[i] < n || (w[i] == n && i < k)) }

  /** order lists exactly the services before wave n and index k, each once; they are no longer NEW. */
  ghost predicate Launched(w: seq<int>, state: seq<nat>, order: seq<int>, n: int, k: int)
  {
    && |state| == |w| && (forall i :: i in order <==> Before(w, i, n, k))
    && (forall i | 0 <= i < |w| :: state[i] != NEW <==> Before(w, i, n, k))
    && (forall a, b | 0 <= a < b < |order| :: order[a] != order[b])
  }

  /** Every service is launched after all its known dependencies. */
  ghost predicate Ordered(s: seq<Service>, order: seq<int>)
  {
    forall a, j | 0 <= a < |order| && Edge(s, order[a], j) :: j in order[..a]
  }

  lemma LaunchOrdered(s: seq<Service>, w: seq<int>, order: seq<int>, n: int, k: int)
    requires Settled(s, w) && 0 <= k < |w| && w[k] == n >= 0 && Ordered(s, order) && forall i :: i in order <==> Before(w, i, n, k)
    ensures Ordered(s, order + [k])
  {
    var next := order + [k];
    assert Follows(s, w, k);
    forall a, j | 0 <= a < |next| && Edge(s, next[a], j) ensures j in next[..a] {
      EdgeRange(s, next[a], j);
      if a < |order| {
        assert next[..a] == order[..a];
      } else {
        assert next[..a] == order;
        assert Before(w, j, n, k);
      }
    }
  }

  lemma LaunchNext(w: seq<int>, state: seq<nat>, order: seq<int>, n: int, k: int, x: nat)
    requires 0 <= k < |w| && w[k] == n && Launched(w, state, order, n, k) && x != NEW
    ensures state[k] == NEW && Launched(w, state[k := x], order + [k], n, k + 1)
  {
    assert k !in order;
    forall i ensures i in order + [k] <==> Before(w, i, n, k + 1) { assert Before(w, i, n, k + 1) <==> Before(w, i, n, k) || i == k; }
  }

  lemma LaunchSkip(w: seq<int>, state: seq<nat>, order: seq<int>, n: int, k: int)
    requires 0 <= k < |w| && w[k] != n && Launched(w, state, order, n, k)
    ensures Launched(w, state, order, n, k + 1)
  {
    assert forall i :: Before(w, i, n, k + 1) <==> Before(w, i, n, k);
  }

  /** launch_wave; outcome is the state svc_launch leaves behind. */
  method LaunchWave(s: seq<Service>, wave: seq<int>, state: array<nat>, n: int, outcome: seq<nat>, was: seq<int>) returns (order: seq<int>)
    requires Settled(s, wave) && state.Length == |s| == |outcome| && (forall i | 0 <= i < |s| :: outcome[i] != NEW) && n >= 0
    requires Launched(wave, state[..], was, n, 0) && Ordered(s, was)
    modifies state
    ensures Launched(wave, state[..], order, n + 1, 0) && Ordered(s, order)
  {
    order := was;
    var i := 0;
    while i < |s|
      invariant 0 <= i <= |s| && Launched(wave, state[..], order, n, i) && Ordered(s, order)
    {
      ghost var st := state[..];
      if wave[i] == n {
        LaunchNext(wave, st, order, n, i, outcome[i]);
        LaunchOrdered(s, wave, order, n, i);
        if state[i] == NEW {
          state[i] := outcome[i];
          assert state[..] == st[i := outcome[i]];
          order := order + [i];
        }
      } else {
        LaunchSkip(wave, st, order, n, i);
      }
      i := i + 1;
    }
    assert forall i :: Before(wave, i, n, |wave|) <==> Before(wave, i, n + 1, 0);
  }

  /** The waves in order: every service is attempted exactly once, after all its known dependencies. */
  method LaunchAll(s: seq<Service>, wave: seq<int>, waves: nat, outcome: seq<nat>) returns (order: seq<int>)
    requires Settled(s, wave) && Largest(wave, waves - 1) && |outcome| == |s|
    requires (forall i | 0 <= i < |s| :: wave[i] >= 0) && forall i | 0 <= i < |s| :: outcome[i] != NEW
    ensures (forall i :: i in order <==> 0 <= i < |s|) && (forall a, b | 0 <= a < b < |order| :: order[a] != order[b])
    ensures Ordered(s, order)
  {
    var state := new nat[|s|](_ => NEW);
    order := [];
    var n := 0;
    while n < waves
      invariant 0 <= n <= waves && Launched(wave, state[..], order, n, 0) && Ordered(s, order)
    {
      order := LaunchWave(s, wave, state, n, outcome, order);
      n := n + 1;
    }
    assert forall i :: Before(wave, i, waves, 0) <==> 0 <= i < |s|;
  }
}

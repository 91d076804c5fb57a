/** The lock-free ring of kernel/ipc/ringbuf.h under every interleaving of one producer and one consumer: each atomic
    load and store and each byte of a memcpy is a step of its own. The batch forms are modelled; a single push or pop is
    a batch of one. */
module RingProtocol {
  import opened Bits

  const WORD := 0x1_0000_0000_0000_0000
  const HALF := 0x1_0000_0000

  type Item = seq<byte>

  /** Where the producer is: before the loads, between them, copying byte j of item i. */
  datatype Producer = PIdle | PLoaded(items: seq<Item>, w: nat) | PCopying(items: seq<Item>, w: nat, i: nat, j: nat)

  /** Where the consumer is: before the loads, between them, or copying n items, of which out are complete. */
  datatype Consumer = CIdle | CLoaded(want: nat, r: nat) | CCopying(n: nat, r: nat, out: seq<Item>, part: seq<byte>)

  /** 2^log slots; items of size bytes; pushed and popped record what was published and what was handed out. */
  datatype State = State(log: nat, size: nat, slots: seq<seq<byte>>, write: nat, read: nat,
                         prod: Producer, cons: Consumer, pushed: seq<Item>, popped: seq<Item>)

  function Count(s: State): nat { Pow2(s.log) }

  /** 64-bit subtraction. */
  function Minus(a: nat, b: nat): nat { (a - b) % WORD }

  /** The slot of 64-bit index w + i. */
  function Slot(w: nat, i: nat, log: nat): nat { (w + i) % WORD % Pow2(log) }

  /** The code finds it with a mask. */
  lemma MaskIs(w: nat, i: nat, log: nat)
    ensures And((w + i) % WORD, Pow2(log) - 1) == Slot(w, i, log)
  {
    AndLow((w + i) % WORD, log);
  }

  function Least(a: nat, b: nat): nat { if a < b then a else b }

  // ---------- steps ----------

  ghost predicate Init(s: State)
  {
    && 1 <= s.log < 32 && |s.slots| == Count(s) && (forall k | 0 <= k < |s.slots| :: |s.slots[k]| >= s.size)
    && s.write == s.read == 0 && s.prod == PIdle && s.cons == CIdle && s.pushed == s.popped == []
  }

  /** The producer loads write_idx. */
  ghost predicate PStart(s: State, t: State)
  {
    && s.prod.PIdle? && t.prod.PLoaded? && t == s.(prod := PLoaded(t.prod.items, s.write))
    && forall k | 0 <= k < |t.prod.items| :: |t.prod.items[k]| == s.size
  }

  /** It loads read_idx and takes as many items as there is room for. */
  ghost predicate PCheck(s: State, t: State)
  {
    && s.prod.PLoaded?
    && var avail := (Count(s) - Minus(s.prod.w, s.read) % HALF) % HALF;
       var n := Least(avail, |s.prod.items|);
       t == s.(prod := PCopying(s.prod.items[..n], s.prod.w, 0, 0))
  }

  ghost predicate PByte(s: State, t: State)
  {
    && s.prod.PCopying? && s.prod.i < |s.prod.items| && s.prod.j < s.size && s.prod.j < |s.prod.items[s.prod.i]|
    && var k := Slot(s.prod.w, s.prod.i, s.log);
       k < |s.slots| && s.prod.j < |s.slots[k]|
       && t == s.(slots := s.slots[k := s.slots[k][s.prod.j := s.prod.items[s.prod.i][s.prod.j]]],
                  prod := PCopying(s.prod.items, s.prod.w, s.prod.i, s.prod.j + 1))
  }

  ghost predicate PNext(s: State, t: State)
  {
    && s.prod.PCopying? && s.prod.i < |s.prod.items| && s.prod.j == s.size
    && t == s.(prod := PCopying(s.prod.items, s.prod.w, s.prod.i + 1, 0))
  }

  /** It stores write_idx, which publishes the items. */
  ghost predicate PStore(s: State, t: State)
  {
    && s.prod.PCopying? && s.prod.i == |s.prod.items|
    && t == s.(write := (s.prod.w + |s.prod.items|) % WORD, prod := PIdle, pushed := s.pushed + s.prod.items)
  }

  /** The consumer loads read_idx. */
  ghost predicate CStart(s: State, t: State)
  {
    s.cons.CIdle? && t.cons.CLoaded? && t == s.(cons := CLoaded(t.cons.want, s.read))
  }

  /** It loads write_idx and takes as many items as there are. */
  ghost predicate CCheck(s: State, t: State)
  {
    && s.cons.CLoaded?
    && var avail := Minus(s.write, s.cons.r) % HALF;
       t == s.(cons := CCopying(Least(avail, s.cons.want), s.cons.r, [], []))
  }

  ghost predicate CByte(s: State, t: State)
  {
    && s.cons.CCopying? && |s.cons.out| < s.cons.n && |s.cons.part| < s.size
    && var k := Slot(s.cons.r, |s.cons.out|, s.log);
       k < |s.slots| && |s.cons.part| < |s.slots[k]|
       && t == s.(cons := CCopying(s.cons.n, s.cons.r, s.cons.out, s.cons.part + [s.slots[k][|s.cons.part|]]))
  }

  ghost predicate CNext(s: State, t: State)
  {
    && s.cons.CCopying? && |s.cons.out| < s.cons.n && |s.cons.part| == s.size
    && t == s.(cons := CCopying(s.cons.n, s.cons.r, s.cons.out + [s.cons.part], []))
  }

  /** It stores read_idx, which frees the slots, and hands the items out. */
  ghost predicate CStore(s: State, t: State)
  {
    && s.cons.CCopying? && |s.cons.out| == s.cons.n
    && t == s.(read := (s.cons.r + s.cons.n) % WORD, cons := CIdle, popped := s.popped + s.cons.out)
  }

  ghost predicate PStep(s: State, t: State) { PStart(s, t) || PCheck(s, t) || PByte(s, t) || PNext(s, t) || PStore(s, t) }

  ghost predicate CStep(s: State, t: State) { CStart(s, t) || CCheck(s, t) || CByte(s, t) || CNext(s, t) || CStore(s, t) }

  // ---------- the invariant ----------

  /** Slot k mod 2^log holds the item x. */
  ghost predicate Holds(s: State, k: nat, x: Item)
    requires |s.slots| == Count(s)
  {
    |x| == s.size <= |s.slots[k % Count(s)]| && s.slots[k % Count(s)][..s.size] == x
  }

  ghost predicate Shape(s: State)
  {
    && 1 <= s.log < 32 && |s.slots| == Count(s) && (forall k | 0 <= k < |s.slots| :: |s.slots[k]| >= s.size)
    && s.write == |s.pushed| % WORD && s.read == |s.popped| % WORD
    && |s.popped| <= |s.pushed| <= |s.popped| + Count(s)
  }

  /** Popped items are a prefix of pushed items, and the slots hold the rest. */
  ghost predicate Queue(s: State)
    requires Shape(s)
  {
    && s.popped == s.pushed[..|s.popped|]
    && forall k: nat | |s.popped| <= k < |s.pushed| :: Holds(s, k, s.pushed[k])
  }

  ghost predicate ProducerOk(s: State)
    requires Shape(s)
  {
    match s.prod
    case PIdle => true
    case PLoaded(items, w) => w == s.write && forall k | 0 <= k < |items| :: |items[k]| == s.size
    case PCopying(items, w, i, j) =>
      && w == s.write && |s.pushed| + |items| <= |s.popped| + Count(s) && i <= |items| && j <= s.size && (i == |items| ==> j == 0)
      && (forall k | 0 <= k < |items| :: |items[k]| == s.size)
      && (forall k: nat | k < i :: Holds(s, |s.pushed| + k, items[k]))
      && (i < |items| ==> s.slots[(|s.pushed| + i) % Count(s)][..j] == items[i][..j])
  }

  ghost predicate ConsumerOk(s: State)
    requires Shape(s)
  {
    match s.cons
    case CIdle => true
    case CLoaded(_, r) => r == s.read
    case CCopying(n, r, out, part) =>
      && r == s.read && |s.popped| + n <= |s.pushed| && |out| <= n && |part| <= s.size && (|out| == n ==> part == [])
      && out == s.pushed[|s.popped|..|s.popped| + |out|]
      && (|out| < n ==> part <= s.pushed[|s.popped| + |out|])
  }

  ghost predicate Inv(s: State) { Shape(s) && Queue(s) && ProducerOk(s) && ConsumerOk(s) }

  // ---------- arithmetic of the indices ----------

  lemma ModMod(x: nat, m: nat, k: nat)
    requires m > 0 && k > 0
    ensures m * k > 0 && x % (m * k) % m == x % m
  {
    var n := m * k;
    var q, r := x / n, x % n;
    assert x == m * (k * q + r / m) + r % m by {
      assert n * q == m * (k * q);
      assert r == m * (r / m) + r % m;
      assert m * (k * q) + m * (r / m) == m * (k * q + r / m);
    }
    DivMod(x, m, k * q + r / m, r % m);
  }

  /** Wrapping the index at 2^64 does not move the slot. */
  lemma SlotIs(total: nat, i: nat, log: nat)
    requires log < 32
    ensures Slot(total % WORD, i, log) == (total + i) % Pow2(log)
  {
    Pow2Add(log, 64 - log);
    assert Pow2(64) == WORD by { Pow2Values(); Pow2Add(32, 32); }
    ModMod(total % WORD + i, Pow2(log), Pow2(64 - log));
    ModMod(total, Pow2(log), Pow2(64 - log));
    AddMod(total, i, Pow2(log), WORD);
  }

  lemma AddMod(x: nat, i: nat, m: nat, n: nat)
    requires m > 0 && n > 0 && x % n % m == x % m
    ensures (x % n + i) % m == (x + i) % m
  {
    var y := x % n;
    var a, b := y / m, x / m;
    var r := y % m + i;
    ModUnder(y + i, a, r, m);
    ModUnder(x + i, b, r, m);
  }

  lemma ModUnder(x: nat, q: nat, r: nat, m: nat)
    requires m > 0 && x == m * q + r
    ensures x % m == r % m
  {
    assert x == m * (q + r / m) + r % m by { assert m * (q + r / m) == m * q + m * (r / m); }
    DivMod(x, m, q + r / m, r % m);
  }

  /** Indices less than 2^log apart use different slots. */
  lemma Distinct(a: nat, b: nat, n: nat)
    requires n > 0 && a < b < a + n
    ensures a % n != b % n
  {
    if a % n == b % n {
      assert (b / n - a / n) * n == b - a;
      SmallMultiple(b / n - a / n, n);
      assert false;
    }
  }

  /** The 64-bit difference of the indices is the occupancy. */
  lemma MinusIs(a: nat, b: nat)
    requires b <= a < b + WORD
    ensures Minus(a % WORD, b % WORD) == a - b
  {
    var x, y := a % WORD, b % WORD;
    assert x - y == WORD * (b / WORD - a / WORD) + (a - b);
    DivMod(x - y, WORD, b / WORD - a / WORD, a - b);
  }

  // ---------- every step keeps the invariant ----------

  lemma Small(s: State)
    requires Shape(s)
    ensures 0 < Count(s) < HALF
  {
    Pow2Monotone(s.log, 31);
    Pow2Values();
    assert Pow2(32) == 2 * Pow2(31);
  }

  lemma SameQueue(s: State, t: State)
    requires Shape(s) && Shape(t) && t.log == s.log && t.size == s.size && t.slots == s.slots && t.pushed == s.pushed && t.popped == s.popped
    ensures Queue(s) ==> Queue(t)
  {
    if Queue(s) {
      forall k: nat | |t.popped| <= k < |t.pushed| ensures Holds(t, k, t.pushed[k]) { assert Holds(s, k, s.pushed[k]); }
    }
  }

  /** The 32-bit arithmetic on the indices computes the free and the used slots. */
  lemma Room(s: State)
    requires Shape(s)
    ensures (Count(s) - Minus(s.write, s.read) % HALF) % HALF == Count(s) - (|s.pushed| - |s.popped|)
    ensures Minus(s.write, s.read) % HALF == |s.pushed| - |s.popped|
  {
    Small(s);
    MinusIs(|s.pushed|, |s.popped|);
  }

  lemma PCheckInv(s: State, t: State)
    requires Inv(s) && (PStart(s, t) || PCheck(s, t))
    ensures Inv(t)
  {
    Room(s);
    SameQueue(s, t);
  }

  lemma CCheckInv(s: State, t: State)
    requires Inv(s) && (CStart(s, t) || CCheck(s, t))
    ensures Inv(t)
  {
    Room(s);
    SameQueue(s, t);
    SameProducer(s, t);
  }

  lemma SameProducer(s: State, t: State)
    requires Shape(s) && Shape(t) && t == s.(cons := t.cons)
    ensures ProducerOk(s) ==> ProducerOk(t)
  {
    if ProducerOk(s) && s.prod.PCopying? {
      forall k: nat | k < s.prod.i ensures Holds(t, |t.pushed| + k, t.prod.items[k]) {
        assert Holds(s, |s.pushed| + k, s.prod.items[k]);
      }
    }
  }

  /** Writing a byte of item i leaves alone every slot from popped up to the item being written. */
  lemma WriteFrame(s: State, t: State, k: nat)
    requires Inv(s) && PByte(s, t) && |s.popped| <= k < |s.pushed| + s.prod.i
    ensures t.slots[k % Count(s)] == s.slots[k % Count(s)]
  {
    SlotIs(|s.pushed|, s.prod.i, s.log);
    Distinct(k, |s.pushed| + s.prod.i, Count(s));
  }

  lemma ByteShape(s: State, t: State)
    requires Inv(s) && PByte(s, t)
    ensures Shape(t) && Queue(t) && ConsumerOk(t)
  {
    forall k: nat | |s.popped| <= k < |s.pushed| ensures Holds(t, k, t.pushed[k]) {
      WriteFrame(s, t, k);
      assert Holds(s, k, s.pushed[k]);
    }
  }

  lemma ByteInv(s: State, t: State)
    requires Inv(s) && PByte(s, t)
    ensures Inv(t)
  {
    ByteShape(s, t);
    var i, j := s.prod.i, s.prod.j;
    forall k: nat | k < i ensures Holds(t, |t.pushed| + k, t.prod.items[k]) {
      WriteFrame(s, t, |s.pushed| + k);
      assert Holds(s, |s.pushed| + k, s.prod.items[k]);
    }
    SlotIs(|s.pushed|, i, s.log);
    var m := (|s.pushed| + i) % Count(s);
    assert t.slots[m][..j + 1] == s.slots[m][..j] + [s.prod.items[i][j]];
    assert s.prod.items[i][..j + 1] == s.prod.items[i][..j] + [s.prod.items[i][j]];
  }

  lemma PNextInv(s: State, t: State)
    requires Inv(s) && PNext(s, t)
    ensures Inv(t)
  {
    SameQueue(s, t);
    var i := s.prod.i;
    assert s.prod.items[i][..s.size] == s.prod.items[i];
    forall k: nat | k < i + 1 ensures Holds(t, |t.pushed| + k, t.prod.items[k]) {
      assert Holds(s, |s.pushed| + k, s.prod.items[k]);
    }
  }

  lemma CNextInv(s: State, t: State)
    requires Inv(s) && CNext(s, t)
    ensures Inv(t)
  {
    SameQueue(s, t);
    SameProducer(s, t);
    NextOut(s);
  }

  /** A complete part is the next item. */
  lemma NextOut(s: State)
    requires Inv(s) && s.cons.CCopying? && |s.cons.out| < s.cons.n && |s.cons.part| == s.size
    ensures s.cons.out + [s.cons.part] == s.pushed[|s.popped|..|s.popped| + |s.cons.out| + 1]
  {
    var k := |s.popped| + |s.cons.out|;
    assert Holds(s, k, s.pushed[k]);
    assert s.cons.part == s.pushed[k];
  }

  lemma PStoreInv(s: State, t: State)
    requires Inv(s) && PStore(s, t)
    ensures Inv(t)
  {
    var items := s.prod.items;
    ModUnder(|s.pushed| + |items|, |s.pushed| / WORD, s.prod.w + |items|, WORD);
    forall k: nat | |t.popped| <= k < |t.pushed| ensures Holds(t, k, t.pushed[k]) {
      if k < |s.pushed| {
        assert Holds(s, k, s.pushed[k]);
      } else {
        assert Holds(s, |s.pushed| + (k - |s.pushed|), items[k - |s.pushed|]);
      }
    }
    if s.cons.CCopying? {
      var n := |s.popped| + |s.cons.out|;
      assert t.pushed[|s.popped|..n] == s.pushed[|s.popped|..n];
    }
  }

  lemma CByteInv(s: State, t: State)
    requires Inv(s) && CByte(s, t)
    ensures Inv(t)
  {
    var k, j := |s.popped| + |s.cons.out|, |s.cons.part|;
    SlotIs(|s.popped|, |s.cons.out|, s.log);
    assert Holds(s, k, s.pushed[k]);
    assert s.slots[k % Count(s)][j] == s.slots[k % Count(s)][..s.size][j] == s.pushed[k][j];
    SameQueue(s, t);
    SameProducer(s, t);
  }

  lemma CStoreInv(s: State, t: State)
    requires Inv(s) && CStore(s, t)
    ensures Inv(t)
  {
    ModUnder(|s.popped| + s.cons.n, |s.popped| / WORD, s.cons.r + s.cons.n, WORD);
    assert t.popped == t.pushed[..|t.popped|];
    forall m: nat | |t.popped| <= m < |t.pushed| ensures Holds(t, m, t.pushed[m]) { assert Holds(s, m, s.pushed[m]); }
  }

  lemma StepInv(s: State, t: State)
    requires Inv(s) && (PStep(s, t) || CStep(s, t))
    ensures Inv(t)
  {
    if PByte(s, t) { ByteInv(s, t); }
    else if PNext(s, t) { PNextInv(s, t); }
    else if PStore(s, t) { PStoreInv(s, t); }
    else if CByte(s, t) { CByteInv(s, t); }
    else if CNext(s, t) { CNextInv(s, t); }
    else if CStore(s, t) { CStoreInv(s, t); }
    else if PStart(s, t) || PCheck(s, t) { PCheckInv(s, t); }
    else { CCheckInv(s, t); }
  }

  /** The main result: in every state of every run, the popped items are a prefix of the pushed items, in order, at most
      2^log items are in the ring, and the slot being written is not the slot being read. */
  lemma {:induction false} Safe(run: seq<State>, n: nat)
    requires n < |run| && Init(run[0]) && forall k | 0 <= k < |run| - 1 :: PStep(run[k], run[k + 1]) || CStep(run[k], run[k + 1])
    ensures var s := run[n];
            && Inv(s) && s.popped <= s.pushed && |s.pushed| - |s.popped| <= Count(s)
            && (s.prod.PCopying? && s.prod.i < |s.prod.items| && s.cons.CCopying? && |s.cons.out| < s.cons.n
                ==> Slot(s.prod.w, s.prod.i, s.log) != Slot(s.cons.r, |s.cons.out|, s.log))
  {
    if n > 0 {
      Safe(run, n - 1);
      StepInv(run[n - 1], run[n]);
    }
    var s := run[n];
    if s.prod.PCopying? && s.prod.i < |s.prod.items| && s.cons.CCopying? && |s.cons.out| < s.cons.n { NoOverlap(s); }
  }

  lemma NoOverlap(s: State)
    requires Inv(s) && s.prod.PCopying? && s.prod.i < |s.prod.items| && s.cons.CCopying? && |s.cons.out| < s.cons.n
    ensures Slot(s.prod.w, s.prod.i, s.log) != Slot(s.cons.r, |s.cons.out|, s.log)
  {
    SlotIs(|s.pushed|, s.prod.i, s.log);
    SlotIs(|s.popped|, |s.cons.out|, s.log);
    Distinct(|s.popped| + |s.cons.out|, |s.pushed| + s.prod.i, Count(s));
  }
}

/** The ring of kernel/ipc/ringbuf.h used from one thread: init, push, pop and the batch forms. */
module RingBuffer {
  import opened Bits
  import opened RingProtocol

  // ---------- is_pow2 ----------

  ghost predicate IsPow2(n: nat) { exists k: nat :: n == Pow2(k) }

  lemma Pow2Half(n: nat)
    requires n > 0
    ensures IsPow2(2 * n) <==> IsPow2(n)
  {
    if IsPow2(n) {
      var k: nat :| n == Pow2(k);
      assert 2 * n == Pow2(k + 1);
    }
    if IsPow2(2 * n) {
      var k: nat :| 2 * n == Pow2(k);
      assert n == Pow2(k - 1);
    }
  }

  /** is_pow2 */
  lemma {:induction false} Pow2Test(n: nat)
    requires n > 0
    ensures And(n, n - 1) == 0 <==> IsPow2(n)
  {
    if n == 1 {
      assert n == Pow2(0);
      AndZero(1);
    } else if n % 2 == 1 {
      var h := n / 2;
      assert And(n, n - 1) == 2 * And(h, h);
      AndSelf(h);
      forall k: nat ensures n != Pow2(k) {}
    } else {
      var h := n / 2;
      Pow2Test(h);
      Pow2Half(h);
      assert And(n, n - 1) == 2 * And(h, h - 1);
    }
  }

  lemma {:induction false} AndSelf(n: nat)
    ensures And(n, n) == n
  {
    if n > 0 { AndSelf(n / 2); }
  }

  // ---------- values ----------

  /** Slots and indices. */
  datatype Ring = Ring(slots: seq<seq<byte>>, write: nat, read: nat)

  function Used(s: Ring): nat { Minus(s.write, s.read) }

  /** x is copied into the slot of index i. */
  function Put(slots: seq<seq<byte>>, i: nat, x: seq<byte>): seq<seq<byte>>
    requires i < |slots| && |x| <= |slots[i]|
  {
    slots[i := x + slots[i][|x|..]]
  }

  ghost predicate Wide(slots: seq<seq<byte>>, log: nat, cap: nat)
  {
    log < 32 && |slots| == Pow2(log) && forall k | 0 <= k < |slots| :: |slots[k]| == cap
  }

  lemma SlotBelow(w: nat, i: nat, log: nat)
    ensures Slot(w, i, log) < Pow2(log)
  {}

  /** ringbuf_push */
  ghost function PushOne(s: Ring, log: nat, cap: nat, x: seq<byte>): Ring
    requires Wide(s.slots, log, cap)
  {
    SlotBelow(s.write, 0, log);
    if Used(s) == Pow2(log) || |x| > cap then s
    else Ring(Put(s.slots, Slot(s.write, 0, log), x), (s.write + 1) % WORD, s.read)
  }

  lemma PushWide(s: Ring, log: nat, cap: nat, x: seq<byte>)
    requires Wide(s.slots, log, cap)
    ensures Wide(PushOne(s, log, cap, x).slots, log, cap)
  {
    SlotBelow(s.write, 0, log);
  }

  /** One push after the other, whether it succeeds or not. */
  ghost function PushEach(s: Ring, log: nat, cap: nat, items: seq<seq<byte>>): Ring
    requires Wide(s.slots, log, cap)
    decreases |items|
  {
    if items == [] then s else
      PushWide(s, log, cap, items[0]);
      PushEach(PushOne(s, log, cap, items[0]), log, cap, items[1..])
  }

  /** A ring after some pops, and what they handed out. */
  datatype Popped = Popped(ring: Ring, out: seq<seq<byte>>)

  /** ringbuf_pop */
  ghost function PopOne(s: Ring, log: nat, cap: nat, size: nat): (p: Popped)
    requires Wide(s.slots, log, cap)
  {
    SlotBelow(s.read, 0, log);
    if s.read == s.write || size > cap then Popped(s, [])
    else Popped(Ring(s.slots, s.write, (s.read + 1) % WORD), [s.slots[Slot(s.read, 0, log)][..size]])
  }

  /** n pops one after the other, whether they succeed or not. */
  ghost function PopEach(s: Ring, log: nat, cap: nat, size: nat, n: nat): (p: Popped)
    requires Wide(s.slots, log, cap)
    ensures p.ring.slots == s.slots
    decreases n
  {
    if n == 0 then Popped(s, []) else
      var t := PopEach(s, log, cap, size, n - 1);
      var p := PopOne(t.ring, log, cap, size);
      Popped(p.ring, t.out + p.out)
  }

  // ---------- the queue ----------

  /** The slots in use, from the oldest to the newest. */
  ghost function Items(s: Ring, log: nat, cap: nat): (q: seq<seq<byte>>)
    requires Wide(s.slots, log, cap)
    ensures |q| == Used(s) && forall i | 0 <= i < |q| :: Slot(s.read, i, log) < |s.slots| && q[i] == s.slots[Slot(s.read, i, log)]
  {
    seq(Used(s), i requires 0 <= i < Used(s) => SlotBelow(s.read, i, log); s.slots[Slot(s.read, i, log)])
  }

  /** The slot that is written is the one behind the last in use, and no slot in use. */
  lemma NextSlot(s: Ring, log: nat, i: nat)
    requires log < 32 && s.read < WORD && s.write < WORD && i < Used(s) < Pow2(log)
    ensures Slot(s.write, 0, log) == Slot(s.read, Used(s), log) != Slot(s.read, i, log)
  {
    LastSlot(s, log);
    SlotsApart(s.read, i, Used(s), log);
  }

  lemma SlotsApart(r: nat, i: nat, j: nat, log: nat)
    requires log < 32 && r < WORD && i < j < Pow2(log)
    ensures Slot(r, i, log) != Slot(r, j, log)
  {
    FlatSlot(r, i, log);
    FlatSlot(r, j, log);
    Distinct(r + i, r + j, Pow2(log));
  }

  lemma FlatSlot(r: nat, i: nat, log: nat)
    requires log < 32 && r < WORD
    ensures Slot(r, i, log) == (r + i) % Pow2(log)
  {
    SlotIs(r, i, log);
    assert r % WORD == r;
  }

  lemma SlotShift(r: nat, i: nat, log: nat)
    requires log < 32 && r < WORD
    ensures Slot((r + 1) % WORD, i, log) == Slot(r, i + 1, log)
  {
    SlotIs(r + 1, i, log);
    FlatSlot(r, i + 1, log);
  }

  lemma LastSlot(s: Ring, log: nat)
    requires s.read < WORD && s.write < WORD
    ensures Slot(s.write, 0, log) == Slot(s.read, Used(s), log)
  {
    assert (s.read + Used(s)) % WORD == s.write;
  }

  /** A push appends an item that starts with the data. */
  lemma PushItems(s: Ring, log: nat, cap: nat, x: seq<byte>, t: Ring)
    requires Wide(s.slots, log, cap) && s.read < WORD && s.write < WORD && Used(s) < Pow2(log) && |x| <= cap
    requires t == PushOne(s, log, cap, x) && Wide(t.slots, log, cap) && Used(t) == Used(s) + 1
    ensures Items(t, log, cap)[..Used(s)] == Items(s, log, cap) && x <= Items(t, log, cap)[Used(s)]
  {
    var a, b := Items(s, log, cap), Items(t, log, cap);
    forall i | 0 <= i < Used(s) ensures b[i] == a[i] { NextSlot(s, log, i); }
    LastSlot(s, log);
    SlotBelow(s.write, 0, log);
  }

  /** A pop takes the oldest item. */
  lemma PopItems(s: Ring, log: nat, cap: nat, t: Ring)
    requires Wide(s.slots, log, cap) && s.read < WORD && Used(s) > 0
    requires t == Ring(s.slots, s.write, (s.read + 1) % WORD) && Used(t) == Used(s) - 1
    ensures Items(t, log, cap) == Items(s, log, cap)[1..]
  {
    var a, b := Items(s, log, cap), Items(t, log, cap);
    forall i | 0 <= i < Used(t) ensures b[i] == a[i + 1] { SlotShift(s.read, i, log); }
  }

  // ---------- batches ----------

  lemma MinusAdd(w: nat, r: nat, k: nat)
    requires Minus(w, r) + k < WORD
    ensures Minus((w + k) % WORD, r) == Minus(w, r) + k
  {
    var q, p := (w - r) / WORD, (w + k) / WORD;
    assert w - r == WORD * q + Minus(w, r);
    assert (w + k) % WORD - r == WORD * (q - p) + (Minus(w, r) + k);
    DivMod((w + k) % WORD - r, WORD, q - p, Minus(w, r) + k);
  }

  lemma MinusSub(w: nat, r: nat, k: nat)
    requires k <= Minus(w, r)
    ensures Minus(w, (r + k) % WORD) == Minus(w, r) - k
  {
    var q, p := (w - r) / WORD, (r + k) / WORD;
    assert w - r == WORD * q + Minus(w, r);
    assert w - (r + k) % WORD == WORD * (q + p) + (Minus(w, r) - k);
    DivMod(w - (r + k) % WORD, WORD, q + p, Minus(w, r) - k);
  }

  lemma SlotFrom(w: nat, i: nat, log: nat)
    ensures Slot((w + i) % WORD, 0, log) == Slot(w, i, log)
  {}

  /** The loop of ringbuf_push_batch after i turns. */
  ghost function PutSome(s: Ring, log: nat, cap: nat, items: seq<seq<byte>>, i: nat): (slots: seq<seq<byte>>)
    requires Wide(s.slots, log, cap) && i <= |items| && forall k | 0 <= k < |items| :: |items[k]| <= cap
    ensures Wide(slots, log, cap)
    decreases i
  {
    if i == 0 then s.slots else
      SlotBelow(s.write, i - 1, log);
      Put(PutSome(s, log, cap, items, i - 1), Slot(s.write, i - 1, log), items[i - 1])
  }

  lemma {:induction false} PushEachLast(s: Ring, log: nat, cap: nat, items: seq<seq<byte>>, x: seq<byte>)
    requires Wide(s.slots, log, cap)
    ensures Wide(PushEach(s, log, cap, items).slots, log, cap)
    ensures PushEach(s, log, cap, items + [x]) == PushOne(PushEach(s, log, cap, items), log, cap, x)
    decreases |items|
  {
    if items == [] {
      assert ([] + [x])[1..] == [];
    } else {
      PushWide(s, log, cap, items[0]);
      PushEachLast(PushOne(s, log, cap, items[0]), log, cap, items[1..], x);
      assert (items + [x])[1..] == items[1..] + [x];
    }
  }

  /** The ring after n items of a batch. */
  ghost function After(s: Ring, log: nat, cap: nat, items: seq<seq<byte>>, n: nat): Ring
    requires Wide(s.slots, log, cap) && n <= |items| && forall k | 0 <= k < |items| :: |items[k]| <= cap
  {
    Ring(PutSome(s, log, cap, items, n), (s.write + n) % WORD, s.read)
  }

  /** How many of k items there is room for. */
  ghost function Fit(s: Ring, log: nat, k: nat): nat
    requires Used(s) <= Pow2(log)
  {
    Least(Pow2(log) - Used(s), k)
  }

  lemma OneMore(s: Ring, log: nat, cap: nat, items: seq<seq<byte>>, k: nat)
    requires Wide(s.slots, log, cap) && Used(s) <= Pow2(log) && k < |items|
    requires forall j | 0 <= j < |items| :: |items[j]| <= cap
    ensures PushOne(After(s, log, cap, items, Fit(s, log, k)), log, cap, items[k]) == After(s, log, cap, items, Fit(s, log, k + 1))
  {
    var n := Fit(s, log, k);
    Indices(s.write, s.read, log, n);
    if n == k && Used(s) + k < Pow2(log) {
      OneFits(s, log, cap, items, k);
    } else {
      NoneFits(s, log, cap, items, n, items[k]);
    }
  }

  lemma OneFits(s: Ring, log: nat, cap: nat, items: seq<seq<byte>>, k: nat)
    requires Wide(s.slots, log, cap) && Used(s) + k < Pow2(log) && k < |items| && log < 32
    requires forall j | 0 <= j < |items| :: |items[j]| <= cap
    ensures PushOne(After(s, log, cap, items, k), log, cap, items[k]) == After(s, log, cap, items, k + 1)
  {
    Indices(s.write, s.read, log, k);
  }

  lemma NoneFits(s: Ring, log: nat, cap: nat, items: seq<seq<byte>>, n: nat, x: seq<byte>)
    requires Wide(s.slots, log, cap) && n <= |items| && log < 32 && Used(s) + n == Pow2(log)
    requires forall j | 0 <= j < |items| :: |items[j]| <= cap
    ensures PushOne(After(s, log, cap, items, n), log, cap, x) == After(s, log, cap, items, n)
  {
    Indices(s.write, s.read, log, n);
  }

  lemma Indices(w: nat, r: nat, log: nat, n: nat)
    requires log < 32 && Minus(w, r) + n <= Pow2(log)
    ensures Minus((w + n) % WORD, r) == Minus(w, r) + n && Slot((w + n) % WORD, 0, log) == Slot(w, n, log)
    ensures ((w + n) % WORD + 1) % WORD == (w + n + 1) % WORD
  {
    CountBelow(log);
    MinusAdd(w, r, n);
    SlotFrom(w, n, log);
    ModUnder(w + n + 1, (w + n) / WORD, (w + n) % WORD + 1, WORD);
  }

  /** Single pushes of the first k items, for every k, do what the batch does with those there is room for. */
  lemma {:induction false} PushBatchIsEach(s: Ring, log: nat, cap: nat, items: seq<seq<byte>>, k: nat)
    requires Wide(s.slots, log, cap) && Used(s) <= Pow2(log) && k <= |items| && s.write < WORD
    requires forall j | 0 <= j < |items| :: |items[j]| <= cap
    ensures PushEach(s, log, cap, items[..k]) == After(s, log, cap, items, Fit(s, log, k))
    decreases k
  {
    if k == 0 {
      assert After(s, log, cap, items, 0) == s;
    } else {
      PushBatchIsEach(s, log, cap, items, k - 1);
      PushEachLast(s, log, cap, items[..k - 1], items[k - 1]);
      assert items[..k - 1] + [items[k - 1]] == items[..k];
      OneMore(s, log, cap, items, k - 1);
    }
  }

  /** The loop of ringbuf_pop_batch: the first size bytes of the next n slots. */
  ghost function GetSome(s: Ring, log: nat, cap: nat, size: nat, n: nat): (out: seq<seq<byte>>)
    requires Wide(s.slots, log, cap) && size <= cap
    ensures |out| == n
    decreases n
  {
    if n == 0 then [] else
      SlotBelow(s.read, n - 1, log);
      GetSome(s, log, cap, size, n - 1) + [s.slots[Slot(s.read, n - 1, log)][..size]]
  }

  /** The ring after a batch of n pops. */
  ghost function Got(s: Ring, log: nat, cap: nat, size: nat, n: nat): Popped
    requires Wide(s.slots, log, cap) && size <= cap
  {
    Popped(Ring(s.slots, s.write, (s.read + n) % WORD), GetSome(s, log, cap, size, n))
  }

  /** Single pops, for every number k of them, hand out what the batch does. */
  lemma {:induction false} PopBatchIsEach(s: Ring, log: nat, cap: nat, size: nat, k: nat)
    requires Wide(s.slots, log, cap) && size <= cap && s.write < WORD && s.read < WORD
    ensures PopEach(s, log, cap, size, k) == Got(s, log, cap, size, Least(Used(s), k))
    decreases k
  {
    if k == 0 {
      assert Got(s, log, cap, size, 0) == Popped(s, []);
    } else {
      PopBatchIsEach(s, log, cap, size, k - 1);
      OneLess(s, log, cap, size, Least(Used(s), k - 1));
    }
  }

  lemma OneLess(s: Ring, log: nat, cap: nat, size: nat, n: nat)
    requires Wide(s.slots, log, cap) && size <= cap && s.write < WORD && n <= Used(s)
    ensures var t := Got(s, log, cap, size, n);
            var p := PopOne(t.ring, log, cap, size);
            Popped(p.ring, t.out + p.out) == Got(s, log, cap, size, if n == Used(s) then n else n + 1)
  {
    MinusSub(s.write, s.read, n);
    SlotFrom(s.read, n, log);
    SlotBelow(s.read, n, log);
    ModUnder(s.read + n + 1, (s.read + n) / WORD, (s.read + n) % WORD + 1, WORD);
    MinusZero(s.write, (s.read + n) % WORD);
  }

  lemma MinusZero(w: nat, r: nat)
    requires w < WORD && r < WORD
    ensures Minus(w, r) == 0 <==> w == r
  {}

  // ---------- the operations ----------

  class Ringbuf {
    const slotSize: nat
    const slotCount: nat
    ghost const log: nat
    var writeIdx: nat
    var readIdx: nat
    var slots: seq<seq<byte>>

    ghost predicate Valid()
      reads this
    {
      slotCount == Pow2(log) && Wide(slots, log, slotSize) && writeIdx < WORD && readIdx < WORD && Minus(writeIdx, readIdx) <= slotCount
    }

    ghost function Now(): Ring
      reads this
    {
      Ring(slots, writeIdx, readIdx)
    }

    ghost function Queue(): seq<seq<byte>>
      requires Valid()
      reads this
    {
      Items(Now(), log, slotSize)
    }

    constructor (size: nat, count: nat, ghost k: nat)
      requires k < 32 && count == Pow2(k)
      ensures Valid() && slotSize == size && slotCount == count && writeIdx == readIdx == 0
    {
      slotSize, slotCount, log, writeIdx, readIdx := size, count, k, 0, 0;
      slots := seq(count, _ => seq(size, _ => 0));
    }

    /** The slot of index w + i, by mask. */
    method Index(w: nat, i: nat) returns (slot: nat)
      requires slotCount == Pow2(log)
      ensures slot == Slot(w, i, log) < slotCount
    {
      slot := And((w + i) % WORD, slotCount - 1);
      MaskIs(w, i, log);
      SlotBelow(w, i, log);
    }

    /** ringbuf_push */
    method Push(data: seq<byte>) returns (ok: bool)
      requires Valid()
      modifies this`slots, this`writeIdx
      ensures Valid() && Now() == PushOne(old(Now()), log, slotSize, data)
      ensures ok <==> Minus(old(writeIdx), readIdx) < slotCount && |data| <= slotSize
      ensures if ok then |Queue()| == old(|Queue()|) + 1 && Queue()[..old(|Queue()|)] == old(Queue()) && data <= Queue()[old(|Queue()|)]
              else Queue() == old(Queue())
    {
      ghost var s := Now();
      if Minus(writeIdx, readIdx) == slotCount { return false; }
      if |data| > slotSize { return false; }
      var slot := Index(writeIdx, 0);
      PushWide(Now(), log, slotSize, data);
      SlotBelow(writeIdx, 0, log);
      CountBelow(log);
      MinusAdd(writeIdx, readIdx, 1);
      slots := slots[slot := data + slots[slot][|data|..]];
      writeIdx := (writeIdx + 1) % WORD;
      ok := true;
      PushItems(s, log, slotSize, data, Now());
    }

    /** ringbuf_pop */
    method Pop(size: nat) returns (ok: bool, data: seq<byte>)
      requires Valid()
      modifies this`readIdx
      ensures Valid() && (ok <==> old(readIdx) != writeIdx && size <= slotSize)
      ensures if ok then old(|Queue()|) > 0 && data == old(Queue())[0][..size] && Queue() == old(Queue())[1..] else Queue() == old(Queue())
      ensures PopOne(old(Now()), log, slotSize, size) == Popped(Now(), if ok then [data] else [])
    {
      ghost var s := Now();
      if readIdx == writeIdx || size > slotSize { return false, []; }
      SlotBelow(readIdx, 0, log);
      MinusZero(writeIdx, readIdx);
      MinusSub(writeIdx, readIdx, 1);
      var slot := Index(readIdx, 0);
      data := slots[slot][..size];
      readIdx := (readIdx + 1) % WORD;
      ok := true;
      PopItems(s, log, slotSize, Now());
    }

    /** The loop of ringbuf_push_batch. */
    method CopyIn(items: seq<seq<byte>>, n: nat)
      requires Valid() && n <= |items| && forall k | 0 <= k < |items| :: |items[k]| <= slotSize
      modifies this`slots
      ensures slots == PutSome(old(Now()), log, slotSize, items, n)
    {
      ghost var s := Now();
      var i := 0;
      while i < n
        invariant i <= n && slots == PutSome(s, log, slotSize, items, i)
      {
        var slot := Index(writeIdx, i);
        slots := slots[slot := items[i] + slots[slot][|items[i]|..]];
        i := i + 1;
      }
    }

    /** ringbuf_push_batch: exactly what single pushes of the items would do. */
    method PushAll(items: seq<seq<byte>>, size: nat) returns (n: nat)
      requires Valid() && forall k | 0 <= k < |items| :: |items[k]| == size
      modifies this`slots, this`writeIdx
      ensures Valid() && Now() == PushEach(old(Now()), log, slotSize, items)
      ensures n == if size > slotSize then 0 else Least(slotCount - Minus(old(writeIdx), readIdx), |items|)
    {
      ghost var s := Now();
      CountBelow(log);
      Halves(slotCount, Minus(writeIdx, readIdx));
      var avail := (slotCount - Minus(writeIdx, readIdx) % HALF) % HALF;
      n := Least(avail, |items|);
      if size > slotSize {
        TooBig(s, log, slotSize, items);
        return 0;
      }
      CopyIn(items, n);
      PushAllIs(s, log, slotSize, items, n);
      writeIdx := (writeIdx + n) % WORD;
    }

    /** ringbuf_pop_batch: exactly what single pops would hand out. */
    method PopAll(size: nat, want: nat) returns (n: nat, out: seq<seq<byte>>)
      requires Valid()
      modifies this`readIdx
      ensures Valid() && PopEach(old(Now()), log, slotSize, size, want) == Popped(Now(), out)
      ensures n == |out| && n == if size > slotSize then 0 else Least(Minus(writeIdx, old(readIdx)), want)
    {
      ghost var s := Now();
      CountBelow(log);
      Halves(slotCount, Minus(writeIdx, readIdx));
      var avail := Minus(writeIdx, readIdx) % HALF;
      n := Least(avail, want);
      if size > slotSize {
        TooLong(s, log, slotSize, size, want);
        return 0, [];
      }
      out := CopyOut(size, n);
      PopAllIs(s, log, slotSize, size, want, n);
      readIdx := (readIdx + n) % WORD;
    }

    /** The loop of ringbuf_pop_batch. */
    method CopyOut(size: nat, n: nat) returns (out: seq<seq<byte>>)
      requires Valid() && size <= slotSize
      ensures out == GetSome(Now(), log, slotSize, size, n)
    {
      out := [];
      var i := 0;
      while i < n
        invariant i <= n && out == GetSome(Now(), log, slotSize, size, i)
      {
        var slot := Index(readIdx, i);
        out := out + [slots[slot][..size]];
        i := i + 1;
      }
    }
  }

  lemma Halves(count: nat, used: nat)
    requires used <= count < HALF
    ensures used % HALF == used && (count - used % HALF) % HALF == count - used
  {}

  lemma PushAllIs(s: Ring, log: nat, cap: nat, items: seq<seq<byte>>, n: nat)
    requires Wide(s.slots, log, cap) && Used(s) <= Pow2(log) && s.write < WORD && n == Fit(s, log, |items|)
    requires forall j | 0 <= j < |items| :: |items[j]| <= cap
    ensures Ring(PutSome(s, log, cap, items, n), (s.write + n) % WORD, s.read) == PushEach(s, log, cap, items)
    ensures Minus((s.write + n) % WORD, s.read) <= Pow2(log)
  {
    CountBelow(log);
    MinusAdd(s.write, s.read, n);
    PushBatchIsEach(s, log, cap, items, |items|);
    assert items[..|items|] == items;
    assert After(s, log, cap, items, n) == PushEach(s, log, cap, items);
  }

  lemma PopAllIs(s: Ring, log: nat, cap: nat, size: nat, want: nat, n: nat)
    requires Wide(s.slots, log, cap) && Used(s) <= Pow2(log) && s.write < WORD && s.read < WORD && size <= cap && n == Least(Used(s), want)
    ensures Popped(Ring(s.slots, s.write, (s.read + n) % WORD), GetSome(s, log, cap, size, n)) == PopEach(s, log, cap, size, want)
    ensures Minus(s.write, (s.read + n) % WORD) <= Pow2(log)
  {
    MinusSub(s.write, s.read, n);
    PopBatchIsEach(s, log, cap, size, want);
  }

  lemma CountBelow(log: nat)
    requires log < 32
    ensures 0 < Pow2(log) < HALF
  {
    Pow2Monotone(log, 31);
    Pow2Values();
    assert Pow2(32) == 2 * Pow2(31);
  }

  lemma {:induction false} TooBig(s: Ring, log: nat, cap: nat, items: seq<seq<byte>>)
    requires Wide(s.slots, log, cap) && forall k | 0 <= k < |items| :: |items[k]| > cap
    ensures PushEach(s, log, cap, items) == s
    decreases |items|
  {
    if items != [] {
      assert forall k | 0 <= k < |items| - 1 :: items[1..][k] == items[k + 1];
      TooBig(s, log, cap, items[1..]);
    }
  }

  lemma {:induction false} TooLong(s: Ring, log: nat, cap: nat, size: nat, n: nat)
    requires Wide(s.slots, log, cap) && size > cap
    ensures PopEach(s, log, cap, size, n) == Popped(s, [])
    decreases n
  {
    if n > 0 { TooLong(s, log, cap, size, n - 1); }
  }

  /** ringbuf_init: refuses exactly what is no power of two, slots under 8 bytes and rings under 2 slots. */
  method Init(slotSize: nat, slotCount: nat) returns (rb: Ringbuf?)
    requires slotSize < HALF && slotCount < HALF
    ensures rb != null <==> slotSize >= 8 && slotCount >= 2 && IsPow2(slotSize) && IsPow2(slotCount)
    ensures rb != null ==> rb.Valid() && rb.slotSize == slotSize && rb.slotCount == slotCount && rb.writeIdx == rb.readIdx == 0
  {
    rb := null;
    if slotSize > 0 { Pow2Test(slotSize); }
    if slotCount > 0 { Pow2Test(slotCount); }
    if slotSize == 0 || And(slotSize, slotSize - 1) != 0 || slotSize < 8 { return; }
    if slotCount == 0 || And(slotCount, slotCount - 1) != 0 || slotCount < 2 { return; }
    ghost var k: nat :| slotCount == Pow2(k);
    if k >= 32 { Pow2Monotone(32, k); Pow2Values(); }
    rb := new Ringbuf(slotSize, slotCount, k);
  }
}

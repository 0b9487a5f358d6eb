/** The fixed-capacity sample ring of one sensor: a 256-slot circular buffer
    with the index of the next write (`head`) and a saturating `count`.  The
    pure part (`Ring`, `Pushed`, `View`) states what the slot's methods do; the
    class `SensorSlot` is the C struct, updated in place. */
module RingBuf {
  import opened Bytes

  /** RB_CAP.  It is a power of two, so masking an index with RB_CAP-1 is
      reduction modulo RB_CAP. */
  const Capacity: nat := 256

  /** sample_t: a reading and its timestamp in epoch seconds.  The reading, a
      C `double`, is only carried, never computed with, so `real` stands for it. */
  datatype Sample = Sample(value: real, ts: uint32)

  /** The slots and the two indices of a sensor slot, as a value. */
  datatype Ring = Ring(slots: seq<Sample>, head: nat, count: nat)

  /** What makes `slots[head]` a legal write and `count` a legal length. */
  predicate Bounded(r: Ring) {
    |r.slots| == Capacity && r.head < Capacity && r.count <= Capacity
  }

  /** While the ring is not full, every push has landed at index `count - 1`,
      so the oldest sample sits at index 0. */
  predicate Aligned(r: Ring) {
    r.count < Capacity ==> r.head == r.count
  }

  /** The slot of the oldest retained sample: `head` once full, 0 before. */
  function Start(r: Ring): nat {
    if r.count == Capacity then r.head else 0
  }

  /** The slot of the i-th oldest retained sample. */
  function Slot(r: Ring, i: nat): nat {
    (Start(r) + i) % Capacity
  }

  /** The chronological view: the `count` retained samples, oldest first. */
  function View(r: Ring): seq<Sample>
    requires Bounded(r)
  {
    seq(r.count, i requires 0 <= i < r.count => r.slots[Slot(r, i)])
  }

  /** rb_clear: forget every sample; the slots themselves are left as they are. */
  function Cleared(r: Ring): (c: Ring)
    ensures Bounded(r) ==> Bounded(c) && Aligned(c) && View(c) == []
    ensures c.slots == r.slots
  {
    r.(head := 0, count := 0)
  }

  /** rb_push: write at `head`, advance `head` by one modulo the capacity, and
      count up until the ring is full. */
  function Pushed(r: Ring, v: Sample): (p: Ring)
    requires Bounded(r)
    ensures Bounded(p)
    ensures Aligned(r) ==> Aligned(p)
  {
    Ring(r.slots[r.head := v], (r.head + 1) % Capacity,
         if r.count < Capacity then r.count + 1 else r.count)
  }

  /** The ring after pushing every sample of `vs` in order. */
  function PushedAll(r: Ring, vs: seq<Sample>): (p: Ring)
    requires Bounded(r)
    ensures Bounded(p)
    decreases |vs|
  {
    if vs == [] then r else PushedAll(Pushed(r, vs[0]), vs[1..])
  }

  /** The last min(|h|, Capacity) elements of `h`, in order. */
  function Newest(h: seq<Sample>): seq<Sample> {
    if |h| <= Capacity then h else h[|h| - Capacity..]
  }

  /** Different positions of the view live in different slots. */
  lemma SlotsDistinct(r: Ring, i: nat, j: nat)
    requires Bounded(r) && i < j < r.count
    ensures Slot(r, i) != Slot(r, j)
  {
    var s := Start(r);
    if s + i < Capacity && Capacity <= s + j {
      assert Slot(r, j) == s + j - Capacity;
    } else if Capacity <= s + i {
      assert Slot(r, i) == s + i - Capacity && Slot(r, j) == s + j - Capacity;
    }
  }

  /** One push appends the sample to the view and, on a full ring, evicts the oldest. */
  lemma {:induction false} PushView(r: Ring, v: Sample)
    requires Bounded(r) && Aligned(r)
    ensures View(Pushed(r, v)) == (if r.count == Capacity then View(r)[1..] else View(r)) + [v]
  {
    var p := Pushed(r, v);
    var want := (if r.count == Capacity then View(r)[1..] else View(r)) + [v];
    forall i | 0 <= i < p.count
      ensures View(p)[i] == want[i]
    {
      if r.count < Capacity {
        PushedSlotGrowing(r, v, i);
      } else {
        PushedSlotFull(r, v, i);
      }
    }
    assert |View(p)| == |want|;
  }

  /** Before the ring fills, the i-th oldest sample after a push sits in slot i. */
  lemma {:induction false} PushedSlotGrowing(r: Ring, v: Sample, i: nat)
    requires Bounded(r) && Aligned(r) && r.count < Capacity && i <= r.count
    ensures Slot(Pushed(r, v), i) == i
    ensures Pushed(r, v).slots[i] == if i < r.count then r.slots[Slot(r, i)] else v
  {
    assert Start(Pushed(r, v)) == 0 && Start(r) == 0;
  }

  /** On a full ring, the i-th oldest sample after a push is the (i+1)-th
      before it, and the newest is the pushed sample. */
  lemma {:induction false} PushedSlotFull(r: Ring, v: Sample, i: nat)
    requires Bounded(r) && r.count == Capacity && i < Capacity
    ensures Pushed(r, v).slots[Slot(Pushed(r, v), i)] == if i < Capacity - 1 then r.slots[Slot(r, i + 1)] else v
  {
    var p := Pushed(r, v);
    assert Start(p) == p.head == (r.head + 1) % Capacity;
    if i < Capacity - 1 {
      assert Slot(p, i) == Slot(r, i + 1);
      SlotsDistinct(r, 0, i + 1);
    } else {
      assert Slot(p, i) == r.head;
    }
  }

  /** Dropping a prefix that keeps at least Capacity elements does not change
      what the newest Capacity elements are. */
  lemma NewestDropPrefix(a: seq<Sample>, d: nat, rest: seq<Sample>)
    requires d <= |a| && (d == 0 || |a| - d >= Capacity)
    ensures Newest(a[d..] + rest) == Newest(a + rest)
  {
    if d > 0 {
      var x, y := a[d..] + rest, a + rest;
      assert y[|y| - Capacity..] == x[|x| - Capacity..];
    } else {
      assert a[d..] == a;
    }
  }

  /** The newest samples after one push, with or without eviction, and then `rest`. */
  lemma NewestAfterPush(w: seq<Sample>, full: bool, v: Sample, rest: seq<Sample>, vs: seq<Sample>, wp: seq<Sample>)
    requires |w| <= Capacity && (full ==> |w| == Capacity)
    requires vs == [v] + rest && wp == (if full then w[1..] else w) + [v]
    ensures Newest(wp + rest) == Newest(w + vs)
  {
    var a := w + [v];
    var d := if full then 1 else 0;
    assert wp == a[d..];
    NewestDropPrefix(a, d, rest);
    assert a + rest == w + vs;
  }

  /** Pushing a sequence keeps the newest Capacity samples of the old view
      followed by the pushed ones. */
  lemma {:induction false} PushAllView(r: Ring, vs: seq<Sample>)
    requires Bounded(r) && Aligned(r)
    ensures Aligned(PushedAll(r, vs))
    ensures View(PushedAll(r, vs)) == Newest(View(r) + vs)
    decreases |vs|
  {
    if vs == [] {
      assert View(r) + vs == View(r);
    } else {
      var p := Pushed(r, vs[0]);
      PushView(r, vs[0]);
      PushAllView(p, vs[1..]);
      NewestAfterPush(View(r), r.count == Capacity, vs[0], vs[1..], vs, View(p));
    }
  }

  /** From rb_clear, k pushes leave the last min(k, Capacity) samples in push order. */
  lemma ClearThenPushAll(r: Ring, vs: seq<Sample>)
    requires Bounded(r)
    ensures View(PushedAll(Cleared(r), vs)) == Newest(vs)
  {
    PushAllView(Cleared(r), vs);
    assert View(Cleared(r)) + vs == vs;
  }

  /** 300 pushes into a cleared ring: it is full and its oldest sample is the 45th pushed. */
  lemma ThreeHundredPushes(r: Ring, vs: seq<Sample>)
    requires Bounded(r) && |vs| == 300
    ensures |View(PushedAll(Cleared(r), vs))| == Capacity
    ensures View(PushedAll(Cleared(r), vs))[0] == vs[44]
  {
    ClearThenPushAll(r, vs);
  }

  /** One visit of rb_foreach's callback: the sample and the slot it sits in. */
  datatype Visit = Visit(sample: Sample, index: nat)

  /** sensor_slot_t.  The name and the sensor type are carried and never
      changed by the ring operations. */
  class SensorSlot {
    var name: seq<byte>
    var head: nat
    var count: nat
    var kind: int
    const buf: array<Sample>

    ghost predicate Valid()
      reads this
    {
      buf.Length == Capacity && head < Capacity && count <= Capacity
    }

    /** The slot as a `Ring` value. */
    function State(): (r: Ring)
      reads this, buf
      ensures Valid() ==> Bounded(r)
    {
      Ring(buf[..], head, count)
    }

    /** A slot as the registry holds it before any push: zero-initialised, so cleared. */
    constructor (name: seq<byte>, kind: int)
      ensures Valid() && fresh(buf)
      ensures this.name == name && this.kind == kind
      ensures Aligned(State()) && View(State()) == []
    {
      this.name := name;
      this.kind := kind;
      head, count := 0, 0;
      buf := new Sample[Capacity](_ => Sample(0.0, 0));
    }

    /** rb_clear. */
    method Clear()
      requires Valid()
      modifies this`head, this`count
      ensures Valid()
      ensures State() == Cleared(old(State()))
      ensures Aligned(State()) && View(State()) == []
    {
      head := 0;
      count := 0;
    }

    /** rb_push: the sample overwrites the oldest one once the ring is full. */
    method Push(v: Sample)
      requires Valid()
      modifies this`head, this`count, buf
      ensures Valid()
      ensures State() == Pushed(old(State()), v)
      ensures buf[old(head)] == v
      ensures forall j :: 0 <= j < Capacity && j != old(head) ==> buf[j] == old(buf[j])
      ensures old(Aligned(State())) ==>
        Aligned(State()) &&
        View(State()) == (if old(count) == Capacity then old(View(State()))[1..] else old(View(State()))) + [v]
    {
      ghost var r := State();
      buf[head] := v;
      // (head + 1) & (RB_CAP - 1) on a non-negative index
      head := (head + 1) % Capacity;
      if count < Capacity {
        count := count + 1;
      }
      assert buf[..] == r.slots[r.head := v];
      if Aligned(r) {
        PushView(r, v);
      }
    }

    /** rb_foreach, with the callback replaced by the sequence of its calls. */
    method Foreach() returns (visits: seq<Visit>)
      requires Valid()
      ensures |visits| == count
      ensures forall i :: 0 <= i < |visits| ==>
        visits[i].index == (Start(State()) + i) % Capacity && visits[i].sample == buf[visits[i].index]
      ensures forall i, j :: 0 <= i < j < |visits| ==> visits[i].index != visits[j].index
      ensures forall i :: 0 <= i < |visits| ==> visits[i].sample == View(State())[i]
    {
      var start := if count == Capacity then head else 0;
      visits := [];
      var i := 0;
      while i < count
        invariant 0 <= i <= count
        invariant |visits| == i
        invariant forall k :: 0 <= k < i ==>
          visits[k].index == Slot(State(), k) && visits[k].sample == buf[visits[k].index]
      {
        var idx := (start + i) % Capacity;
        visits := visits + [Visit(buf[idx], idx)];
        i := i + 1;
      }
      forall i, j | 0 <= i < j < |visits|
        ensures visits[i].index != visits[j].index
      {
        SlotsDistinct(State(), i, j);
      }
    }

    /** rb_copy_chrono: copy the oldest min(n, count) samples into `dst`. */
    method CopyChrono(dst: array<Sample>, n: nat) returns (r: nat)
      requires Valid() && n < 0x1_0000
      requires dst != buf && dst.Length >= (if n > count then count else n)
      modifies dst
      ensures r == (if n > count then count else n)
      ensures dst[..r] == View(State())[..r]
      ensures dst[r..] == old(dst[r..])
    {
      r := if n > count then count else n;
      var start := if count == Capacity then head else 0;
      var i := 0;
      while i < r
        invariant 0 <= i <= r
        invariant forall k :: 0 <= k < i ==> dst[k] == View(State())[k]
        invariant dst[r..] == old(dst[r..])
      {
        var idx := (start + i) % Capacity;
        dst[i] := buf[idx];
        i := i + 1;
      }
    }
  }
}

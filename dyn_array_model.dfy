/** The value-level model of `struct r_dyn_array`: its scalar fields as a
    `Header`, the transition each operation makes on them, the byte layout of
    the slots, and the properties the operations promise. The class in
    module `DynArrays` is specified by these functions. */
module DynArrayModel {
  import opened Ssize
  import opened ElementTypes

  /** `R_DYN_ARRAY_GROWTH_FACTOR`. */
  const GROWTH_FACTOR: int := 2

  /** The scalar fields of `struct r_dyn_array` (the shelter and the cached
      data pointer are the class's buffer field). */
  datatype Header = Header(
    count: int,
    capacity: int,
    growthFactor: int,
    eltByteSize: int,
    kind: ElementKind)

  /** The invariant every operation keeps: `0 <= count <= capacity`, a
      positive slot width that is the kind's own width except for raw
      vectors, and the fixed growth factor. */
  predicate WellFormed(h: Header) {
    && 0 <= h.count <= h.capacity <= SSIZE_MAX
    && 1 <= h.eltByteSize
    && h.growthFactor == GROWTH_FACTOR
    && (h.kind != Raw ==> h.eltByteSize == EltSizeOf(h.kind))
  }

  // ---------------------------------------------------------------------
  // Construction

  /** The fields `r_new_dyn_vector(type, capacity)` stores. */
  function VectorHeader(kind: ElementKind, capacity: int): (r: Header)
    requires 0 <= capacity <= SSIZE_MAX
    ensures WellFormed(r)
    ensures r.count == 0 && r.capacity == capacity && r.kind == kind
    ensures r.growthFactor == 2 && r.eltByteSize == EltSizeOf(kind)
  {
    Header(0, capacity, GROWTH_FACTOR, EltSizeOf(kind), kind)
  }

  /** `r_new_dyn_array(elt_byte_size, capacity)` as the source writes it: a
      raw vector of `capacity * elt_byte_size` bytes whose slot width is the
      raw width 1, so the record size is not recorded. */
  function ArrayHeaderAsWritten(eltByteSize: int, capacity: int): (r: Result<Header>)
    requires 1 <= eltByteSize <= SSIZE_MAX && 0 <= capacity <= SSIZE_MAX
    ensures r.Err? <==> capacity * eltByteSize > SSIZE_MAX
    ensures r.Ok? ==> WellFormed(r.value) && r.value.count == 0 && r.value.kind == Raw
    ensures r.Ok? ==> r.value.capacity == capacity * eltByteSize && r.value.eltByteSize == 1
  {
    match Mult(capacity, eltByteSize)
    case None => Err(Overflow)
    case Some(bytes) => Ok(VectorHeader(Raw, bytes))
  }

  /** `r_new_dyn_array` as intended: the same raw byte buffer, but counted
      in records of `eltByteSize` bytes. */
  function ArrayHeader(eltByteSize: int, capacity: int): (r: Result<Header>)
    requires 1 <= eltByteSize <= SSIZE_MAX && 0 <= capacity <= SSIZE_MAX
    ensures r.Err? <==> capacity * eltByteSize > SSIZE_MAX
    ensures r.Ok? ==> WellFormed(r.value) && r.value.count == 0 && r.value.kind == Raw
    ensures r.Ok? ==> r.value.capacity == capacity && r.value.eltByteSize == eltByteSize
    ensures r.Ok? ==> r.value.growthFactor == 2
  {
    match Mult(capacity, eltByteSize)
    case None => Err(Overflow)
    case Some(bytes) => Ok(VectorHeader(Raw, bytes).(capacity := capacity, eltByteSize := eltByteSize))
  }

  /** Both constructions need the same number of bytes; the one as written
      counts them as 1-byte slots, so a record array of width above one
      reports a capacity that is not its number of records. */
  lemma RecordSizeLost(eltByteSize: int, capacity: int)
    requires 1 < eltByteSize <= SSIZE_MAX && 1 <= capacity <= SSIZE_MAX
    requires capacity * eltByteSize <= SSIZE_MAX
    ensures ArrayHeaderAsWritten(eltByteSize, capacity).Ok?
    ensures ArrayHeader(eltByteSize, capacity).Ok?
    ensures var w, c := ArrayHeaderAsWritten(eltByteSize, capacity).value,
                        ArrayHeader(eltByteSize, capacity).value;
            && w.capacity * w.eltByteSize == c.capacity * c.eltByteSize
            && w.eltByteSize != c.eltByteSize
            && w.capacity > c.capacity
  {
    var w := ArrayHeaderAsWritten(eltByteSize, capacity).value;
    MulStrict(capacity, 1, eltByteSize);
    assert w.capacity == capacity * eltByteSize > capacity;
  }

  // ---------------------------------------------------------------------
  // Resize and push

  /** The fields after `r_arr_resize(p_arr, capacity)`. */
  function ResizedHeader(h: Header, capacity: int): (r: Header)
    requires 0 <= capacity <= SSIZE_MAX
    ensures r.capacity == capacity
    ensures 0 <= h.count <= capacity ==> r.count == h.count
    ensures capacity < h.count ==> r.count == capacity
    ensures r.count <= capacity && r.count <= h.count
    ensures r.kind == h.kind && r.eltByteSize == h.eltByteSize && r.growthFactor == h.growthFactor
    ensures WellFormed(h) ==> WellFormed(r)
    ensures WellFormed(h) && capacity == h.capacity ==> r == h
  {
    h.(count := Min(h.count, capacity), capacity := capacity)
  }

  /** The fields after `r_arr_push_back`, as the source computes them:
      `count` is incremented; if it passes `capacity`, the capacity is
      multiplied by the growth factor (checked) and the array resized to it,
      which clamps `count` to the new capacity. */
  function PushOutcome(h: Header): (r: Result<Header>)
    requires WellFormed(h)
    ensures r.Err? <==> h.count == h.capacity && h.capacity * GROWTH_FACTOR > SSIZE_MAX
    ensures r.Ok? ==> WellFormed(r.value)
    ensures r.Ok? ==> r.value.kind == h.kind && r.value.eltByteSize == h.eltByteSize
    ensures r.Ok? && h.count < h.capacity ==> r.value.capacity == h.capacity
    ensures r.Ok? && h.count == h.capacity ==> r.value.capacity == h.capacity * GROWTH_FACTOR
    ensures r.Ok? && 1 <= h.capacity ==> r.value.count == h.count + 1
  {
    var bumped := h.(count := h.count + 1);
    if bumped.count > h.capacity then
      match Mult(h.capacity, h.growthFactor)
      case None => Err(Overflow)
      case Some(newCapacity) => Ok(ResizedHeader(bumped, newCapacity))
    else
      Ok(bumped)
  }

  /** `r_arr_ptr_back`: the byte offset of slot `count - 1`. It lies inside a
      buffer of `capacity` slots exactly when the array is not empty. */
  function BackOffset(h: Header): (r: int)
    ensures r == (h.count - 1) * h.eltByteSize
    ensures WellFormed(h) ==>
      (1 <= h.count <==> 0 <= r && r + h.eltByteSize <= h.capacity * h.eltByteSize)
  {
    BackSlotFits(h);
    (h.count - 1) * h.eltByteSize
  }

  /** A well-formed array's populated bytes fit in its buffer. */
  lemma BackSlotFits(h: Header)
    ensures WellFormed(h) ==> h.count * h.eltByteSize <= h.capacity * h.eltByteSize
  {
  }

  /** A push on an array of capacity at least one lands on a new slot that
      lies inside the (possibly grown) buffer, just past the old contents. */
  lemma PushSlotInBounds(h: Header)
    requires WellFormed(h) && 1 <= h.capacity
    requires PushOutcome(h).Ok?
    ensures var h' := PushOutcome(h).value;
            && BackOffset(h') == h.count * h.eltByteSize
            && 0 <= BackOffset(h')
            && BackOffset(h') + h.eltByteSize <= h'.capacity * h'.eltByteSize
  {
  }

  /** With capacity 0 the growth step computes capacity 0, the resize clamps
      `count` back to 0, and the push leaves the fields as they were: the
      slot it then writes is at offset `-eltByteSize`, outside the buffer. */
  lemma ZeroCapacityPushLosesSlot(h: Header)
    requires WellFormed(h) && h.capacity == 0
    ensures PushOutcome(h) == Ok(h)
    ensures BackOffset(PushOutcome(h).value) == -h.eltByteSize < 0
  {
  }

  /** Shrinking below `count` loses the elements past the new capacity for
      good: growing back afterwards does not bring them back. */
  lemma ShrinkTruncates(h: Header, small: int, large: int)
    requires WellFormed(h) && 0 <= small < h.count && h.count <= large <= SSIZE_MAX
    ensures ResizedHeader(ResizedHeader(h, small), large).count == small
    ensures ResizedHeader(h, large).count == h.count
  {
  }

  // ---------------------------------------------------------------------
  // Sequences of pushes

  /** The fields after `n` pushes, or the first growth overflow. */
  function PushMany(h: Header, n: nat): (r: Result<Header>)
    requires WellFormed(h)
    ensures r.Ok? ==> WellFormed(r.value)
    decreases n
  {
    if n == 0 then Ok(h)
    else
      match PushOutcome(h)
      case Err(e) => Err(e)
      case Ok(next) => PushMany(next, n - 1)
  }

  /** How many of those `n` pushes find the array full and resize it. */
  function Resizes(h: Header, n: nat): (r: nat)
    requires WellFormed(h)
    decreases n
  {
    if n == 0 then 0
    else
      match PushOutcome(h)
      case Err(_) => 0
      case Ok(next) => (if h.count == h.capacity then 1 else 0) + Resizes(next, n - 1)
  }

  /** Monotonic growth: along any run of pushes that does not overflow,
      starting from capacity at least one, the capacity never decreases,
      `count` stays within it and grows by one per push. */
  lemma {:induction false} PushManyGrows(h: Header, n: nat)
    requires WellFormed(h) && 1 <= h.capacity
    requires PushMany(h, n).Ok?
    ensures var h' := PushMany(h, n).value;
            && h.capacity <= h'.capacity
            && h'.count == h.count + n
            && h'.count <= h'.capacity
            && h'.kind == h.kind && h'.eltByteSize == h.eltByteSize
    decreases n
  {
    if n > 0 {
      var next := PushOutcome(h).value;
      PushManyGrows(next, n - 1);
    }
  }

  function Pow2(k: nat): (r: int)
    ensures 1 <= r
  {
    if k == 0 then 1 else 2 * Pow2(k - 1)
  }

  /** A state reachable from capacity `c0` by `k` doublings: the capacity is
      `c0 * 2^k` and, after at least one doubling, more than `c0 * 2^(k-1)`
      elements are stored. */
  predicate Doubled(h: Header, c0: int, k: nat) {
    && h.capacity == c0 * Pow2(k)
    && h.count <= h.capacity
    && (0 < k ==> c0 * Pow2(k - 1) < h.count)
  }

  lemma {:induction false} PushManyDoubles(h: Header, c0: int, k: nat, n: nat)
    requires WellFormed(h) && 1 <= c0 && Doubled(h, c0, k)
    requires PushMany(h, n).Ok?
    ensures Doubled(PushMany(h, n).value, c0, k + Resizes(h, n))
    ensures PushMany(h, n).value.count == h.count + n
    decreases n
  {
    if n > 0 {
      var next := PushOutcome(h).value;
      if h.count == h.capacity {
        DoubledStep(h, next, c0, k);
        PushManyDoubles(next, c0, k + 1, n - 1);
      } else {
        PushManyDoubles(next, c0, k, n - 1);
      }
    }
  }

  /** One resizing push moves a state `k` doublings from `c0` to `k + 1`. */
  lemma DoubledStep(h: Header, next: Header, c0: int, k: nat)
    requires WellFormed(h) && 1 <= c0 && Doubled(h, c0, k)
    requires h.count == h.capacity && PushOutcome(h) == Ok(next)
    ensures Doubled(next, c0, k + 1)
  {
  }

  /** Amortized growth: `n` pushes into an empty array of capacity `c0 >= 1`
      resize it `r` times, leaving capacity `c0 * 2^r`; when `r >= 1`, those
      resizes need more than `c0 * 2^(r-1)` elements, so
      `r <= ceil(log2(n / c0))`. */
  lemma AmortizedGrowth(h: Header, n: nat)
    requires WellFormed(h) && h.count == 0 && 1 <= h.capacity
    requires PushMany(h, n).Ok?
    ensures var h', r := PushMany(h, n).value, Resizes(h, n);
            && h'.count == n
            && h'.capacity == h.capacity * Pow2(r)
            && (0 < r ==> h.capacity * Pow2(r - 1) < n)
  {
    PushManyDoubles(h, h.capacity, 0, n);
  }

  // ---------------------------------------------------------------------
  // Slots of the byte buffer

  /** The `eltByteSize` bytes of slot `i`. */
  function Slot(s: seq<bv8>, eltByteSize: int, i: int): (r: seq<bv8>)
    requires 1 <= eltByteSize && 0 <= i && (i + 1) * eltByteSize <= |s|
    ensures |r| == eltByteSize
  {
    MulNonneg(i, eltByteSize);
    s[i * eltByteSize .. (i + 1) * eltByteSize]
  }

  /** `s` and `t` both hold at least `m` slots, and their first `m` slots
      hold the same bytes. */
  predicate SameSlots(s: seq<bv8>, t: seq<bv8>, eltByteSize: int, m: nat)
    requires 1 <= eltByteSize
  {
    && m * eltByteSize <= |s| && m * eltByteSize <= |t|
    && forall i :: 0 <= i < m ==>
      (MulMono(i + 1, m, eltByteSize); Slot(s, eltByteSize, i) == Slot(t, eltByteSize, i))
  }

  /** The bytes a push stores: a copy of the first `eltByteSize` source
      bytes, or zeros when no source is given. */
  function ElementBytes(src: Option<seq<bv8>>, eltByteSize: nat): (r: seq<bv8>)
    requires src.Some? ==> eltByteSize <= |src.value|
    ensures |r| == eltByteSize
    ensures src.None? ==> forall k :: 0 <= k < eltByteSize ==> r[k] == 0
    ensures src.Some? ==> forall k :: 0 <= k < eltByteSize ==> r[k] == src.value[k]
  {
    match src
    case None => seq(eltByteSize, _ => 0 as bv8)
    case Some(bytes) => bytes[..eltByteSize]
  }

  /** Appending one slot's bytes to `n` full slots keeps those `n` slots and
      makes the appended bytes slot `n`. */
  lemma AppendSlot(s: seq<bv8>, w: seq<bv8>, eltByteSize: int, n: nat)
    requires 1 <= eltByteSize && |s| == n * eltByteSize && |w| == eltByteSize
    ensures |s + w| == (n + 1) * eltByteSize
    ensures forall i :: 0 <= i < n ==> Slot(s + w, eltByteSize, i) == Slot(s, eltByteSize, i)
    ensures Slot(s + w, eltByteSize, n) == w
  {
    // Dafny also proves this lemma without the steps below, at several
    // times the cost; the per-slot split keeps it cheap.
    assert (n + 1) * eltByteSize == n * eltByteSize + eltByteSize;
    forall i | 0 <= i < n
      ensures Slot(s + w, eltByteSize, i) == Slot(s, eltByteSize, i)
    {
      MulMono(i + 1, n, eltByteSize);
      SliceOfAppend(s, w, i * eltByteSize, (i + 1) * eltByteSize);
    }
    assert Slot(s + w, eltByteSize, n) == (s + w)[|s|..|s| + |w|];
    assert (s + w)[|s|..|s| + |w|] == w;
  }

  lemma SliceOfAppend(s: seq<bv8>, w: seq<bv8>, lo: int, hi: int)
    requires 0 <= lo <= hi <= |s|
    ensures (s + w)[lo..hi] == s[lo..hi]
  {
  }

  /** Keeping the first `m * eltByteSize` bytes of `n >= m` slots keeps
      the first `m` slots. */
  lemma TruncateSlots(s: seq<bv8>, eltByteSize: int, n: nat, m: nat)
    requires 1 <= eltByteSize && |s| == n * eltByteSize && m <= n
    ensures m * eltByteSize <= |s|
    ensures forall i :: 0 <= i < m ==>
      Slot(s[..m * eltByteSize], eltByteSize, i) == Slot(s, eltByteSize, i)
  {
    // Without the per-slot split below this lemma can run out of resource.
    MulMono(m, n, eltByteSize);
    forall i | 0 <= i < m
      ensures Slot(s[..m * eltByteSize], eltByteSize, i) == Slot(s, eltByteSize, i)
    {
      MulMono(i + 1, m, eltByteSize);
      MulNonneg(i, eltByteSize);
      SliceOfPrefix(s, m * eltByteSize, i * eltByteSize, (i + 1) * eltByteSize);
    }
  }

  lemma SliceOfPrefix(s: seq<bv8>, len: int, lo: int, hi: int)
    requires 0 <= lo <= hi <= len <= |s|
    ensures s[..len][lo..hi] == s[lo..hi]
  {
  }

  /** A buffer that keeps a common prefix with the old one keeps the bytes
      of the first `kept <= count` slots, when both hold them. */
  lemma ReallocKeepsPrefix(before: seq<bv8>, after: seq<bv8>, eltByteSize: int, count: nat, kept: nat)
    requires 1 <= eltByteSize && kept <= count
    requires count * eltByteSize <= |before| && kept * eltByteSize <= |after|
    requires after[..Min(|before|, |after|)] == before[..Min(|before|, |after|)]
    ensures kept * eltByteSize <= count * eltByteSize
    ensures after[..kept * eltByteSize] == before[..count * eltByteSize][..kept * eltByteSize]
  {
  }

  /** The bytes after a push: the old buffer possibly moved to a larger one
      (`resized` keeps the common prefix), then `bytes` written at `start`,
      the end of the old contents. */
  lemma WrittenSlotBytes(before: seq<bv8>, resized: seq<bv8>, after: seq<bv8>, bytes: seq<bv8>, start: nat)
    requires start <= |before| && start + |bytes| <= |resized|
    requires resized[..Min(|before|, |resized|)] == before[..Min(|before|, |resized|)]
    requires after == resized[..start] + bytes + resized[start + |bytes|..]
    ensures after[..start + |bytes|] == before[..start] + bytes
  {
  }

  // ---------------------------------------------------------------------
  // Arithmetic helpers

  lemma MulNonneg(a: int, b: int)
    requires 0 <= a && 0 <= b
    ensures 0 <= a * b
  {
  }

  lemma MulMono(a: int, b: int, c: int)
    requires a <= b && 0 <= c
    ensures a * c <= b * c
  {
  }

  lemma MulStrict(a: int, b: int, c: int)
    requires 0 < a && b < c
    ensures a * b < a * c
  {
  }
}

/** `struct r_dyn_array` and its operations as a class that owns its byte
    buffer. The GC shelter and the cached `v_data` pointer of the source are
    one field here, `data`, which a resize replaces by a fresh buffer. */
module DynArrays {
  import opened Ssize
  import opened ElementTypes
  import opened DynArrayModel

  /** The bytes a non-null `p_elt` points to, or `None` for a null one. */
  function Source(elt: array?<bv8>): (r: Option<seq<bv8>>)
    reads elt
    ensures r.None? <==> elt == null
    ensures r.Some? ==> r.value == elt[..]
  {
    if elt == null then None else Some(elt[..])
  }

  /** `r_vec_resize0` on a buffer: a new buffer of `newLength` bytes whose
      first `min(old length, newLength)` bytes are the old buffer's. What the
      bytes past the old end hold is left open. */
  method Realloc(buffer: array<bv8>, newLength: nat) returns (b: array<bv8>)
    ensures fresh(b) && b.Length == newLength
    ensures b[..Min(buffer.Length, newLength)] == buffer[..Min(buffer.Length, newLength)]
  {
    b := new bv8[newLength];
    var keep := Min(buffer.Length, newLength);
    for i := 0 to keep
      invariant forall j :: 0 <= j < i ==> b[j] == buffer[j]
    {
      b[i] := buffer[i];
    }
  }

  /** `memcpy`/`memset` of `bytes` into `dst` at `offset`. */
  method CopyInto(dst: array<bv8>, offset: nat, bytes: seq<bv8>)
    requires offset + |bytes| <= dst.Length
    modifies dst
    ensures dst[..] == old(dst[..offset]) + bytes + old(dst[offset + |bytes|..])
  {
    ghost var before := dst[..];
    for j := 0 to |bytes|
      invariant forall k :: 0 <= k < dst.Length && !(offset <= k < offset + j) ==> dst[k] == before[k]
      invariant forall k :: 0 <= k < j ==> dst[offset + k] == bytes[k]
    {
      dst[offset + j] := bytes[j];
    }
    assert dst[..] == before[..offset] + bytes + before[offset + |bytes|..];
  }

  class DynArray {
    var count: int
    var capacity: int
    var growthFactor: int
    var eltByteSize: int
    var kind: ElementKind
    /** The current backing buffer of `capacity * eltByteSize` bytes. */
    var data: array<bv8>

    /** The scalar fields as a value. */
    function Meta(): (h: Header)
      reads this
    {
      Header(count, capacity, growthFactor, eltByteSize, kind)
    }

    /** The fields agree with each other and with the buffer, except that
        `count` may have run one past `capacity` (inside a push). */
    ghost predicate Sized()
      reads this
    {
      && 0 <= count
      && 0 <= capacity <= SSIZE_MAX
      && 1 <= eltByteSize
      && growthFactor == GROWTH_FACTOR
      && (kind != Raw ==> eltByteSize == EltSizeOf(kind))
      && data.Length == capacity * eltByteSize <= SSIZE_MAX
    }

    /** The object invariant: in addition, `count <= capacity`. */
    ghost predicate Valid()
      reads this
      ensures Valid() ==> WellFormed(Meta())
    {
      Sized() && count <= capacity
    }

    /** The bytes of the `count` populated slots. */
    ghost function Contents(): (s: seq<bv8>)
      reads this, data
      requires Valid()
      ensures |s| == count * eltByteSize
    {
      MulMono(count, capacity, eltByteSize);
      data[..count * eltByteSize]
    }

    /** `r_new_dyn_vector(type, capacity)`: an empty array of `capacity`
        slots of the kind's width, growth factor 2. */
    constructor NewDynVector(kind: ElementKind, capacity: int)
      requires 0 <= capacity && capacity * EltSizeOf(kind) <= SSIZE_MAX
      ensures Valid() && fresh(data)
      ensures Meta() == VectorHeader(kind, capacity)
      ensures data.Length == capacity * EltSizeOf(kind)
      ensures Contents() == []
    {
      MulMono(1, EltSizeOf(kind), capacity);
      data := new bv8[capacity * EltSizeOf(kind)];
      this.count := 0;
      this.capacity := capacity;
      this.growthFactor := GROWTH_FACTOR;
      this.kind := kind;
      this.eltByteSize := EltSizeOf(kind);
    }

    /** `r_arr_resize(p_arr, newCapacity)`: swap in a buffer of
        `eltByteSize * newCapacity` bytes (that product is not checked in the
        source, so it must fit), clamp `count`, set `capacity`. */
    method Resize(newCapacity: int)
      requires Sized()
      requires 0 <= newCapacity && newCapacity * eltByteSize <= SSIZE_MAX
      modifies this
      ensures Valid() && fresh(data)
      ensures Meta() == ResizedHeader(old(Meta()), newCapacity)
      ensures var keep := Min(old(data.Length), data.Length); data[..keep] == old(data[..])[..keep]
      ensures newCapacity == old(capacity) ==> data[..] == old(data[..])
      ensures old(count <= capacity) ==>
        |Contents()| <= old(|Contents()|) && Contents() == old(Contents())[..|Contents()|]
    {
      ghost var before := data[..];
      ghost var oldCount := count;
      var buffer := Realloc(data, eltByteSize * newCapacity);
      data := buffer;
      count := Min(count, newCapacity);
      capacity := newCapacity;
      MulMono(count, capacity, eltByteSize);
      if oldCount <= old(capacity) {
        MulMono(oldCount, old(capacity), eltByteSize);
        ReallocKeepsPrefix(before, data[..], eltByteSize, oldCount, count);
      }
    }

    /** `r_arr_push_back(p_arr, elt)`: store one more element, growing the
        buffer by the growth factor when it is full, and write the element's
        bytes (a copy of `elt`, or zeros for null) into the new last slot.
        A push from capacity 0 cannot work (see `ZeroCapacityPushLosesSlot`),
        hence `1 <= capacity`. */
    method PushBack(elt: array?<bv8>) returns (outcome: Outcome)
      requires Valid() && 1 <= capacity
      requires elt != null ==> eltByteSize <= elt.Length
      requires count < SSIZE_MAX
      requires count == capacity && capacity * GROWTH_FACTOR <= SSIZE_MAX ==>
               capacity * GROWTH_FACTOR * eltByteSize <= SSIZE_MAX
      modifies this, data
      ensures outcome.Fail? <==> PushOutcome(old(Meta())).Err?
      ensures outcome.Fail? ==> outcome.error == Overflow && data == old(data)
      ensures outcome.Fail? ==> Meta() == old(Meta()).(count := old(count) + 1)
      ensures outcome.Fail? ==> data[..] == old(data[..])
      ensures outcome.Pass? ==> Valid() && Meta() == PushOutcome(old(Meta())).value
      ensures outcome.Pass? ==>
        Contents() == old(Contents() + ElementBytes(Source(elt), eltByteSize))
      ensures outcome.Pass? && old(count < capacity) ==>
        && data == old(data)
        && forall k :: 0 <= k < data.Length && !(old(|Contents()|) <= k < old(|Contents()|) + eltByteSize)
             ==> data[k] == old(data[k])
      ensures outcome.Pass? && old(count == capacity) ==> fresh(data)
    {
      ghost var h0 := Meta();
      ghost var before := data[..];
      ghost var start := |Contents()|;
      var bytes := ElementBytes(Source(elt), eltByteSize);
      outcome := MakeRoom();
      if outcome.Fail? {
        return;
      }
      ghost var resized := data[..];
      PushSlotInBounds(h0);
      assert start == BackOffset(Meta()) && start + eltByteSize <= |resized|;
      WriteBack(bytes);
      assert start <= |before| by {
        MulMono(h0.count, h0.capacity, eltByteSize);
      }
      WrittenSlotBytes(before, resized, data[..], bytes, start);
    }

    /** Lines 43-48 of `r_arr_push_back`: count the new element and, if it
        does not fit, grow the capacity by the growth factor (checked) and
        resize to it. */
    method MakeRoom() returns (outcome: Outcome)
      requires Valid() && 1 <= capacity && count < SSIZE_MAX
      requires count == capacity && capacity * GROWTH_FACTOR <= SSIZE_MAX ==>
               capacity * GROWTH_FACTOR * eltByteSize <= SSIZE_MAX
      modifies this
      ensures outcome.Fail? <==> PushOutcome(old(Meta())).Err?
      ensures outcome.Fail? ==> outcome.error == Overflow && data == old(data)
      ensures outcome.Fail? ==> Meta() == old(Meta()).(count := old(count) + 1)
      ensures outcome.Pass? ==> Valid() && Meta() == PushOutcome(old(Meta())).value
      ensures outcome.Pass? ==>
        var keep := Min(old(data.Length), data.Length); data[..keep] == old(data[..])[..keep]
      ensures outcome.Pass? && old(count < capacity) ==> data == old(data)
      ensures outcome.Pass? && old(count == capacity) ==> fresh(data)
    {
      count := count + 1;
      if count > capacity {
        var grown := Mult(capacity, growthFactor);
        if grown.None? {
          return Fail(Overflow);
        }
        Resize(grown.value);
      }
      outcome := Pass;
    }

    /** Lines 50-54 of `r_arr_push_back`: overwrite the last slot, the one
        `r_arr_ptr_back` points to, with `bytes`. */
    method WriteBack(bytes: seq<bv8>)
      requires Valid() && 1 <= count && |bytes| == eltByteSize
      modifies data
      ensures 0 <= BackOffset(Meta()) && BackOffset(Meta()) + eltByteSize == count * eltByteSize
      ensures data[..] == old(data[..BackOffset(Meta())]) + bytes + old(data[BackOffset(Meta()) + eltByteSize..])
    {
      var offset := BackOffset(Meta());
      assert offset + eltByteSize == count * eltByteSize;
      CopyInto(data, offset, bytes);
    }

    /** The bytes of the last slot, read through `r_arr_ptr_back`. */
    method Back() returns (bytes: seq<bv8>)
      requires Valid() && 1 <= count
      ensures bytes == Slot(Contents(), eltByteSize, count - 1)
    {
      var offset := BackOffset(Meta());
      assert offset + eltByteSize == count * eltByteSize;
      bytes := data[offset .. offset + eltByteSize];
    }
  }

  /** `r_new_dyn_array(elt_byte_size, capacity)` as the source writes it: a
      raw vector of `capacity * elt_byte_size` one-byte slots. */
  method NewDynArrayAsWritten(eltByteSize: int, capacity: int) returns (r: Result<DynArray>)
    requires 1 <= eltByteSize <= SSIZE_MAX && 0 <= capacity <= SSIZE_MAX
    ensures r.Err? <==> capacity * eltByteSize > SSIZE_MAX
    ensures r.Ok? ==> fresh(r.value) && fresh(r.value.data) && r.value.Valid()
    ensures r.Ok? ==> r.value.Meta() == ArrayHeaderAsWritten(eltByteSize, capacity).value
    ensures r.Ok? ==> r.value.Contents() == []
  {
    var bytes := Mult(capacity, eltByteSize);
    if bytes.None? {
      return Err(Overflow);
    }
    var a := new DynArray.NewDynVector(Raw, bytes.value);
    return Ok(a);
  }

  /** `r_new_dyn_array` as intended: the same raw byte buffer, counted in
      records of `eltByteSize` bytes. */
  method NewDynArray(eltByteSize: int, capacity: int) returns (r: Result<DynArray>)
    requires 1 <= eltByteSize <= SSIZE_MAX && 0 <= capacity <= SSIZE_MAX
    ensures r.Err? <==> capacity * eltByteSize > SSIZE_MAX
    ensures r.Ok? ==> fresh(r.value) && fresh(r.value.data) && r.value.Valid()
    ensures r.Ok? ==> r.value.Meta() == ArrayHeader(eltByteSize, capacity).value
    ensures r.Ok? ==> r.value.data.Length == capacity * eltByteSize
    ensures r.Ok? ==> r.value.Contents() == []
  {
    var bytes := Mult(capacity, eltByteSize);
    if bytes.None? {
      return Err(Overflow);
    }
    var a := new DynArray.NewDynVector(Raw, bytes.value);
    a.capacity := capacity;
    a.eltByteSize := eltByteSize;
    return Ok(a);
  }

  /** A client: a record array of 8-byte records and initial capacity 2
      takes three pushes (doubling once), then shrinks to 1 and to 0. */
  method RecordArrayScenario(r1: array<bv8>, r2: array<bv8>, r3: array<bv8>)
    requires r1.Length == 8 && r2.Length == 8 && r3.Length == 8
  {
    var made := NewDynArray(8, 2);
    var a := made.value;
    assert a.capacity == 2 && a.count == 0;
    var o1 := a.PushBack(r1);
    assert a.Contents() == r1[..];
    var o2 := a.PushBack(r2);
    assert a.count == 2 && a.capacity == 2;
    assert a.Contents() == r1[..] + r2[..];
    var o3 := a.PushBack(r3);
    assert a.count == 3 && a.capacity == 4;
    assert a.Contents() == r1[..] + r2[..] + r3[..];
    a.Resize(1);
    assert a.count == 1 && a.capacity == 1;
    assert a.Contents() == r1[..];
    a.Resize(0);
    assert a.count == 0 && a.capacity == 0;
  }

  /** A client of `r_arr_push_back` and `r_arr_ptr_back`: after a successful
      push, the last slot holds the element's bytes and every earlier slot
      holds what it held before. */
  method PushThenBack(a: DynArray, elt: array?<bv8>) returns (outcome: Outcome, bytes: seq<bv8>)
    requires a.Valid() && 1 <= a.capacity
    requires elt != null ==> a.eltByteSize <= elt.Length
    requires a.count < SSIZE_MAX
    requires a.count == a.capacity && a.capacity * GROWTH_FACTOR <= SSIZE_MAX ==>
             a.capacity * GROWTH_FACTOR * a.eltByteSize <= SSIZE_MAX
    modifies a, a.data
    ensures outcome.Fail? <==> PushOutcome(old(a.Meta())).Err?
    ensures outcome.Pass? ==>
      && a.Valid() && a.count == old(a.count) + 1 && a.eltByteSize == old(a.eltByteSize)
    ensures outcome.Pass? ==> bytes == old(ElementBytes(Source(elt), a.eltByteSize))
    ensures outcome.Pass? ==>
      SameSlots(a.Contents(), old(a.Contents()), a.eltByteSize, old(a.count))
  {
    ghost var before := a.Contents();
    ghost var n := a.count;
    ghost var w := ElementBytes(Source(elt), a.eltByteSize);
    outcome := a.PushBack(elt);
    if outcome.Fail? {
      return outcome, [];
    }
    bytes := a.Back();
    AppendSlot(before, w, a.eltByteSize, n);
  }

  /** A client of `r_arr_resize`: the slots below both the old count and the
      new capacity keep their bytes. */
  method ResizeKeepsSlots(a: DynArray, newCapacity: int)
    requires a.Valid()
    requires 0 <= newCapacity && newCapacity * a.eltByteSize <= SSIZE_MAX
    modifies a
    ensures a.Valid() && a.count == Min(old(a.count), newCapacity)
    ensures a.eltByteSize == old(a.eltByteSize) && a.count <= old(a.count)
    ensures SameSlots(a.Contents(), old(a.Contents()), a.eltByteSize, a.count)
  {
    ghost var before := a.Contents();
    ghost var n := a.count;
    a.Resize(newCapacity);
    TruncateSlots(before, a.eltByteSize, n, a.count);
  }
}

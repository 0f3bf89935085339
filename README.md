# rlang dynamic array, modelled in Dafny

This project models the growable, type-homogeneous buffer of rlang's C
library, `struct r_dyn_array` in `src/rlang/dyn-array.c`, and proves
properties of that model. The record holds `count`, `capacity`,
`growth_factor`, `elt_byte_size`, the element `type`, a `shelter` list whose
slot 1 holds the backing R vector (which keeps it reachable by the GC), and
`v_data`, a cached pointer into that vector. The operations are:

- `r_new_dyn_vector`: builds an empty typed vector.
- `r_new_dyn_array`: builds a raw-byte vector meant for fixed-size records.
- `r_arr_push_back`: appends one element, copied from a pointer or zero-filled
  for null, and doubles the capacity when the array is full.
- `r_arr_resize`: swaps the backing buffer realloc-style.

The layout:

- `ssize.dfy` (module `Ssize`): the `r_ssize` range, assumed to be that of
  a 64-bit `ptrdiff_t`; the checked multiplication `r_ssize_mult` (returns
  `None` where the product leaves that range and the call aborts);
  `r_ssize_min`; and small `Option`/`Result`/`Outcome` types.
- `element_types.dfy` (module `ElementTypes`): the element kinds and their
  slot widths (`r_vec_elt_sizeof0`).
- `dyn_array_model.dfy` (module `DynArrayModel`): the value-level
  specification. A `Header` holds the record's scalar fields. `WellFormed`
  is the invariant (`0 <= count <= capacity`, slot width, growth factor 2).
  The module also has one function per operation's effect on the fields, the
  slot layout of the byte buffer, and the lemmas.
- `dyn_array.dfy` (module `DynArrays`): the imperative model. The class
  `DynArray` has the record's fields and owns one `array<bv8>` buffer, which
  plays the part of both the shelter's data slot and the cached `v_data`
  pointer. `Resize` replaces that buffer with a fresh one. `PushBack` writes
  the new slot either in place or into the grown buffer. Every method is
  specified against the functions of `DynArrayModel`: `Meta()` (the fields as
  a `Header`) and `Contents()` (the bytes of the `count` populated slots).
  `RecordArrayScenario` is a client: an 8-byte record array of capacity 2,
  three pushes, then shrinks to 1 and to 0. `PushThenBack` and
  `ResizeKeepsSlots` restate a push and a resize slot by slot.

Two places where the code does not do what its callers would expect are
recorded under "## Findings":

- `r_new_dyn_array` takes `elt_byte_size` but stores only the raw width 1,
  and it counts capacity in bytes rather than in records.
- Growing from capacity 0 gives capacity 0, so a push onto an array of
  capacity 0 writes its element before the start of the buffer.

## Model

| member | source | states |
|---|---|---|
| `Ssize.Mult` | src/rlang/dyn-array.c:45-46 | `r_ssize_mult`: gives the exact product when it fits in an `r_ssize`, and fails (the source aborts) exactly when it does not; never wraps |
| `Ssize.Min` | src/rlang/dyn-array.c:66 | `r_ssize_min`: the smaller of the two arguments (it is one of them and at most both) |
| `ElementTypes.EltSizeOf` | src/rlang/dyn-array.c:29 | each kind's slot width is between 1 and 16 bytes, and it is 1 exactly for the raw kind |
| `DynArrayModel.VectorHeader` | src/rlang/dyn-array.c:24-29 | a new vector is well formed: count 0, the requested capacity, growth factor 2, the given type, and that type's slot width |
| `DynArrayModel.ArrayHeaderAsWritten` | src/rlang/dyn-array.c:35-39 | as written: fails exactly when `capacity * elt_byte_size` overflows; otherwise gives a raw vector whose capacity is that byte count and whose slot width is 1 |
| `DynArrayModel.ArrayHeader` | src/rlang/dyn-array.c:35-39 | corrected: same overflow condition; otherwise gives a raw array with count 0, capacity `capacity` and slot width `elt_byte_size` |
| `DynArrayModel.RecordSizeLost` | src/rlang/dyn-array.c:35-39 | for record width above 1, both constructions reserve the same bytes; the one as written has a different slot width and a capacity larger than the number of records |
| `DynArrayModel.ResizedHeader` | src/rlang/dyn-array.c:66-67 | resize sets capacity to `c` and keeps `count` when it fits; below `count` it truncates `count` to `c`. Type, slot width and growth factor are unchanged, the invariant is kept, and resizing to the current capacity changes nothing |
| `DynArrayModel.ShrinkTruncates` | src/rlang/dyn-array.c:66-67 | after a shrink below `count`, growing back does not restore the lost elements; a resize at or above `count` keeps it |
| `DynArrayModel.PushOutcome` | src/rlang/dyn-array.c:42-48 | a push fails exactly when a full array's doubled capacity overflows. Otherwise the invariant is kept and type and width are unchanged. Capacity stays the same if there was room and doubles if the array was full. From capacity at least 1, `count` grows by exactly one |
| `DynArrayModel.BackOffset` | src/rlang/dyn-array.c:50-54 | `r_arr_ptr_back` is the byte offset `(count-1) * elt_byte_size` (stated in its ensures); for a well-formed array the slot there lies inside the buffer exactly when `count >= 1` |
| `DynArrayModel.BackSlotFits` | src/rlang/dyn-array.c:50-54 | for a well-formed array, the `count` populated slots fit in the `capacity * elt_byte_size` bytes of the buffer |
| `DynArrayModel.PushSlotInBounds` | src/rlang/dyn-array.c:43-54 | from capacity at least 1, the slot a push writes starts at the old contents' end (`old count * elt_byte_size`) and lies inside the possibly grown buffer |
| `DynArrayModel.ZeroCapacityPushLosesSlot` | src/rlang/dyn-array.c:43-47 | from capacity 0, growth computes 0 and the resize clamps `count` back to 0, so the fields end up unchanged and the write offset is `-elt_byte_size`, outside the buffer |
| `DynArrayModel.PushMany` | src/rlang/dyn-array.c:42-48 | every run of pushes that does not overflow leaves a well-formed array |
| `DynArrayModel.PushManyGrows` | src/rlang/dyn-array.c:42-48 | monotonic growth: over `n` pushes from capacity at least 1, capacity never decreases, `count` grows by exactly `n` and stays within capacity, and type and width are unchanged |
| `DynArrayModel.DoubledStep` | src/rlang/dyn-array.c:44-47 | one resizing push turns a capacity of `c0 * 2^k` into `c0 * 2^(k+1)`, and leaves more than `c0 * 2^k` elements stored |
| `DynArrayModel.PushManyDoubles` | src/rlang/dyn-array.c:44-47 | over any run of pushes, each resize doubles capacity: capacity becomes `c0 * 2^(k + resizes)`, and the element count always exceeds the capacity before the last doubling |
| `DynArrayModel.AmortizedGrowth` | src/rlang/dyn-array.c:44-47 | `n` pushes into an empty array of capacity `C >= 1` that make `r` resizes leave capacity `C * 2^r`; when `r >= 1`, `C * 2^(r-1) < n`, so `r <= ceil(log2(n / C))` |
| `DynArrayModel.Slot` | src/rlang/dyn-array.c:51 | slot `i` of a buffer is exactly `elt_byte_size` bytes long |
| `DynArrayModel.ElementBytes` | src/rlang/dyn-array.c:50-54 | a push stores exactly `elt_byte_size` bytes: all zero for a null element, and the source's first bytes for a non-null one |
| `DynArrayModel.AppendSlot` | src/rlang/dyn-array.c:50-54 | appending one slot's bytes leaves every earlier slot unchanged and makes the appended bytes the last slot |
| `DynArrayModel.TruncateSlots` | src/rlang/dyn-array.c:61-66 | keeping the first `m` slots' bytes keeps each of those slots unchanged |
| `DynArrayModel.ReallocKeepsPrefix` | src/rlang/dyn-array.c:61-66 | a buffer that shares the old one's common prefix holds the first `min(count, c)` slots' old bytes unchanged |
| `DynArrayModel.WrittenSlotBytes` | src/rlang/dyn-array.c:50-54 | after the possible move and the write at the old end, the populated bytes are the old contents followed by the new element |
| `DynArrays.Source` | src/rlang/dyn-array.c:50 | the bytes behind `p_elt` are absent exactly when the pointer is null |
| `DynArrays.Realloc` | src/rlang/dyn-array.c:61-63 | the replacement buffer is fresh, has the requested byte length, and keeps the old buffer's first `min(old, new)` bytes |
| `DynArrays.CopyInto` | src/rlang/dyn-array.c:51-53 | `memcpy`/`memset`: the buffer afterwards is the old bytes before `offset`, then the written bytes, then the old bytes after them |
| `DynArrays.DynArray.NewDynVector` | src/rlang/dyn-array.c:10-33 | the new array is valid, owns a fresh buffer of `capacity * width` bytes, has fields `VectorHeader(type, capacity)`, and holds no elements |
| `DynArrays.NewDynArrayAsWritten` | src/rlang/dyn-array.c:35-39 | fails exactly on overflow of `capacity * elt_byte_size`; otherwise gives a fresh valid empty array with the as-written fields |
| `DynArrays.NewDynArray` | src/rlang/dyn-array.c:35-39 | corrected: fails exactly on overflow; otherwise gives a fresh valid empty raw array with `capacity` records of `elt_byte_size` bytes in a buffer of their product |
| `DynArrays.DynArray.Resize` | src/rlang/dyn-array.c:57-69 | new fields are `ResizedHeader(old, c)` and the invariant holds. The new buffer is fresh and keeps the common byte prefix. The populated bytes are a prefix of the old ones, so slots below `min(count, c)` are preserved. Resizing to the current capacity keeps every byte |
| `DynArrays.DynArray.MakeRoom` | src/rlang/dyn-array.c:43-48 | increments `count`. On growth overflow it fails with only `count` changed. Otherwise the new fields are `PushOutcome(old)`, and the buffer is either kept or replaced by a fresh one that preserves the old bytes |
| `DynArrays.DynArray.WriteBack` | src/rlang/dyn-array.c:50-54 | only the last slot, at `r_arr_ptr_back`'s offset, is overwritten with the given bytes; every other byte is unchanged |
| `DynArrays.DynArray.PushBack` | src/rlang/dyn-array.c:42-55 | fails exactly when growth overflows. On success: the fields are `PushOutcome(old)` and the invariant holds; the contents are the old contents plus the element's bytes (copied, or zeros for null); with room, the same buffer keeps every byte outside the new slot; when full, a fresh grown buffer is used |
| `DynArrays.DynArray.Back` | src/rlang/dyn-array.c:51 | the bytes read at `r_arr_ptr_back` are exactly the last populated slot |
| `DynArrays.PushThenBack` | src/rlang/dyn-array.c:42-55 | a successful push followed by a read through `r_arr_ptr_back` gives back the element's bytes (copied, or zeros for null); `count` grows by one and every earlier slot holds its old bytes. A push fails exactly when growth overflows |
| `DynArrays.ResizeKeepsSlots` | src/rlang/dyn-array.c:57-69 | after a resize, `count` is `min(old count, new capacity)` and each of those slots holds its old bytes |

## Left out

- The GC shelter mechanics are not modelled: `KEEP`/`FREE`, `r_mark_object`, `r_poke_attrib`, `r_list_poke` and `r_list_get` (src/rlang/dyn-array.c:12-20, 31, 62-64). They exist for R's tracing collector. Here the class owns its buffer directly.
- `r_init_library_dyn_array` and the `attribs_dyn_array` class marker (src/rlang/dyn-array.c:6-7, 72-75) are left out. They are one-time R attribute setup with no logic.
- `r_vec_deref0` is not modelled as a pointer. The cached `v_data` is the `data` field itself, so "refresh the pointer" is the field assignment in `Resize`.
- `r_vec_resize0` is not part of this model. `Realloc` promises that the first `min(old length, new length)` bytes are kept. It leaves the bytes past the old end unspecified. The length argument at src/rlang/dyn-array.c:63 is a byte count (`elt_byte_size * capacity`), and the R API may read it as an element count for non-raw types. The model always keeps a buffer of exactly `capacity * elt_byte_size` bytes.
- `Realloc` always returns a fresh buffer, so `Resize` and a growing `PushBack` always replace `data` with a new array, even when the size has not changed. `r_vec_resize0` might hand back the same vector in that case, and the model does not cover that.
- `Ssize.Mult` / `SSIZE_MAX`: the definitions of `r_ssize`, its maximum and `r_ssize_mult` are not part of this model. The model assumes the 64-bit `PTRDIFF_MAX`/`PTRDIFF_MIN` bounds. It defines `Mult` by the behaviour src/rlang/dyn-array.c:37 and 45 rely on: the exact product, or an abort when the product does not fit. Every "fails exactly when … overflows" contract is relative to that assumed bound; a narrower bound such as R's `R_XLEN_T_MAX` would make those calls fail on smaller products.
- `r_vec_elt_sizeof0` is not part of this model. `EltSizeOf` assumes the usual 64-bit C sizes: logical and integer 4, double 8, complex 16, raw 1. Character and list vectors are not modelled: their slots are R object pointers, not plain bytes.
- Allocation failure is not modelled as an outcome. It is a fatal R error, so the model turns it into preconditions. `NewDynVector` requires a non-negative capacity whose byte size fits in an `r_ssize`. `Resize` requires its byte length to fit, because that product (src/rlang/dyn-array.c:63) is unchecked in the source.
- DynArrays.DynArray.PushBack: requires `1 <= capacity`, because from capacity 0 the source writes out of bounds (see Findings). It also requires `count < SSIZE_MAX`, because `++count` must not overflow. When a full array's doubled capacity fits, it requires the doubled byte length to fit too, because the resize length is unchecked.
- After a failed checked multiplication, the model returns `Fail(Overflow)` with only `count` incremented. In R the error unwinds past the caller, and the array must not be used again.
- `AmortizedGrowth` bounds the number of resizes, not the bytes they copy.
- `src/sexp.c` is not part of this model. It holds thin wrappers over R's attribute API, pointer formatting and pointer equality.

## Findings

| source | as written | input that shows it | evidently intended | confidence | as-written member | corrected member |
|---|---|---|---|---|---|---|
| src/rlang/dyn-array.c:35-39 | `r_new_dyn_array` builds a raw vector of `capacity * elt_byte_size` one-byte slots and never records `elt_byte_size` | `r_new_dyn_array(8, 2)` gives capacity 16 and slot width 1, so a push copies 1 byte of an 8-byte record | capacity 2 records of slot width 8 over the same 16-byte buffer | not executed; high | `DynArrayModel.ArrayHeaderAsWritten` (shown by `DynArrayModel.RecordSizeLost`) | `DynArrayModel.ArrayHeader`, used by `DynArrays.NewDynArray` |
| src/rlang/dyn-array.c:43-54 | growth from capacity 0 computes `0 * 2 = 0`; the resize clamps `count` to 0, and the write goes to slot `count - 1 = -1` | push onto `r_new_dyn_array(8, 0)` or onto any array resized to 0: writes `elt_byte_size` bytes before the buffer | a push always ends with a valid last slot (capacity at least 1 before growing) | not executed; high | `DynArrayModel.PushOutcome` (shown by `DynArrayModel.ZeroCapacityPushLosesSlot`) | `DynArrays.DynArray.PushBack` (precondition `1 <= capacity`), with `DynArrayModel.PushSlotInBounds` |

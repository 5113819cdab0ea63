/**
 * Decoding and validation of a System V IPC object identifier
 * (`LOOKUP_IPC_OBJECT` in src/extension/sysvipc/sysvipc_internal.h).
 *
 * An identifier is the C `int` the tracee passes as its first syscall
 * argument. Bits 0-11 hold `index + 1`, bits 12-27 a generation; bits 28-31
 * are ignored. The same decoding serves the queue array and the semaphore
 * array of a namespace, so the lookup is generic in the slot type and takes
 * the slot's `int16_t generation` field as a function.
 *
 * The bit operations of the source are written arithmetically on the signed
 * 32-bit id: masking a two's-complement value with `0xFFF` is its Euclidean
 * remainder by 0x1000 (Dafny's `%`), and an arithmetic right shift by 12 is
 * floor division by 0x1000 (Dafny's `/` by a positive divisor). Packing
 * `(index + 1) | (generation << 12)` adds two disjoint bit fields.
 */
module IpcLookup {
  import opened SysvipcTypes

  /** A slot found by a lookup: its position and its contents. */
  datatype Located<T> = Located(index: nat, obj: T)

  /** The index field `id & 0xFFF`, which is `index + 1` for a well-formed id. */
  function SlotBits(id: int32): (s: nat)
    ensures s < 0x1000
  {
    (id as int) % 0x1000
  }

  /** The generation field `(id >> 12) & 0xFFFF`; never negative. */
  function GenerationBits(id: int32): (g: nat)
    ensures g < 0x1_0000
  {
    ((id as int) / 0x1000) % 0x1_0000
  }

  /** Bits 0-27 of the id, the only ones a lookup reads. */
  function LowBits(id: int32): (b: nat)
    ensures b < 0x1000_0000
  {
    (id as int) % 0x1000_0000
  }

  /** The identifier of the slot at `index` with generation `generation`,
      `(index + 1) | (generation << 12)`, for the indexes that fit the 12-bit
      field and the generations an `int16_t` holds without going negative. */
  function EncodeId(index: nat, generation: nat): (id: int32)
    requires index < 0xFFF && generation < 0x8000
    ensures SlotBits(id) == index + 1
    ensures GenerationBits(id) == generation
    ensures 0 < id as int < 0x1000_0000
  {
    ((index + 1) + generation * 0x1000) as int32
  }

  /** `LOOKUP_IPC_OBJECT(out_index, out_object, objects)`: the slot named by
      `id`, or `EINVAL` when the index field is zero or past the end of the
      array or when the generation field differs from the slot's generation. */
  function LookupIpcObject<T>(id: int32, objects: seq<T>, generation: T -> int16): (r: Result<Located<T>>)
    ensures r.Err? ==> r.errno == EINVAL
    ensures r.Ok? ==> r.value.index < |objects| && r.value.index < 0xFFF
    ensures r.Ok? ==> r.value.obj == objects[r.value.index]
    ensures r.Ok? ==> r.value.index == SlotBits(id) - 1
    ensures r.Ok? ==> 0 <= generation(r.value.obj) as int == GenerationBits(id)
  {
    var objectIndex: int := SlotBits(id);
    if objectIndex <= 0 || objectIndex > |objects| then
      Err(EINVAL)
    else
      var obj := objects[objectIndex - 1];
      if generation(obj) as int != GenerationBits(id) then
        Err(EINVAL)
      else
        Ok(Located(objectIndex - 1, obj))
  }

  /** Every way the lookup fails, and each of them alone is enough. */
  lemma LookupRejects<T>(id: int32, objects: seq<T>, generation: T -> int16)
    ensures SlotBits(id) == 0 ==> LookupIpcObject(id, objects, generation) == Err(EINVAL)
    ensures SlotBits(id) > |objects| ==> LookupIpcObject(id, objects, generation) == Err(EINVAL)
    ensures 0 < SlotBits(id) <= |objects| && generation(objects[SlotBits(id) - 1]) as int != GenerationBits(id)
            ==> LookupIpcObject(id, objects, generation) == Err(EINVAL)
  {
  }

  /** Bits 0-27 determine the id's fields. */
  lemma FieldsOfLowBits(id: int32)
    ensures LowBits(id) == SlotBits(id) + 0x1000 * GenerationBits(id)
  {
    var x := id as int;
    var q := x / 0x1000;
    assert x == 0x1000 * q + SlotBits(id);
    assert q == 0x1_0000 * (q / 0x1_0000) + GenerationBits(id);
    assert x == 0x1000_0000 * (q / 0x1_0000) + (SlotBits(id) + 0x1000 * GenerationBits(id));
  }

  /** Bits 28-31 of an id never affect the lookup. */
  lemma LookupIgnoresTopBits<T>(id1: int32, id2: int32, objects: seq<T>, generation: T -> int16)
    requires LowBits(id1) == LowBits(id2)
    ensures LookupIpcObject(id1, objects, generation) == LookupIpcObject(id2, objects, generation)
  {
    FieldsOfLowBits(id1);
    FieldsOfLowBits(id2);
    assert SlotBits(id1) == LowBits(id1) % 0x1000;
    assert SlotBits(id2) == LowBits(id2) % 0x1000;
    assert GenerationBits(id1) == LowBits(id1) / 0x1000;
    assert GenerationBits(id2) == LowBits(id2) / 0x1000;
  }

  /** Round trip: the id of any reachable slot with a non-negative generation
      is accepted and decodes back to that slot. */
  lemma LookupOfEncodedId<T>(index: nat, objects: seq<T>, generation: T -> int16)
    requires index < |objects| && index < 0xFFF
    requires 0 <= generation(objects[index])
    ensures LookupIpcObject(EncodeId(index, generation(objects[index]) as nat), objects, generation)
            == Ok(Located(index, objects[index]))
  {
  }

  /** A stale id, one encoded with a generation the slot no longer holds,
      is rejected. */
  lemma StaleIdRejected<T>(index: nat, staleGeneration: nat, objects: seq<T>, generation: T -> int16)
    requires index < |objects| && index < 0xFFF && staleGeneration < 0x8000
    requires generation(objects[index]) as int != staleGeneration
    ensures LookupIpcObject(EncodeId(index, staleGeneration), objects, generation) == Err(EINVAL)
  {
  }

  /** An accepted id is, up to bits 28-31, the encoding of the slot it
      names with that slot's current generation. */
  lemma AcceptedIdIsEncoding<T>(id: int32, objects: seq<T>, generation: T -> int16)
    requires LookupIpcObject(id, objects, generation).Ok?
    ensures var found := LookupIpcObject(id, objects, generation).value;
            LowBits(id) == EncodeId(found.index, generation(found.obj) as nat) as int
  {
    var found := LookupIpcObject(id, objects, generation).value;
    FieldsOfLowBits(id);
    var e := EncodeId(found.index, generation(found.obj) as nat);
    FieldsOfLowBits(e);
  }

  /** The ids a lookup accepts are exactly the encodings of the slots the
      12-bit index field reaches, each with its current non-negative
      generation (bits 28-31 free). */
  lemma LookupAcceptsExactlyEncodings<T>(id: int32, objects: seq<T>, generation: T -> int16)
    ensures LookupIpcObject(id, objects, generation).Ok?
            <==> exists i :: 0 <= i < |objects| && i < 0xFFF && 0 <= generation(objects[i])
                             && LowBits(id) == EncodeId(i, generation(objects[i]) as nat) as int
  {
    if LookupIpcObject(id, objects, generation).Ok? {
      AcceptedIdIsEncoding(id, objects, generation);
    } else {
      forall i | 0 <= i < |objects| && i < 0xFFF && 0 <= generation(objects[i])
        ensures LowBits(id) != EncodeId(i, generation(objects[i]) as nat) as int
      {
        var e := EncodeId(i, generation(objects[i]) as nat);
        if LowBits(id) == e as int {
          FieldsOfLowBits(e);
          assert LowBits(e) == LowBits(id);
          LookupIgnoresTopBits(id, e, objects, generation);
          LookupOfEncodedId(i, objects, generation);
          assert false;
        }
      }
    }
  }

  /** A slot whose `int16_t` generation is negative can never be found, and
      an id whose generation field is 0x8000 or above is never accepted: the
      field is compared, as a value in 0..0xFFFF, with the sign-extended
      stored generation. */
  lemma NegativeGenerationNeverMatches<T>(id: int32, index: nat, objects: seq<T>, generation: T -> int16)
    requires index < |objects| && generation(objects[index]) < 0
    ensures LookupIpcObject(id, objects, generation).Ok? ==> LookupIpcObject(id, objects, generation).value.index != index
    ensures GenerationBits(id) >= 0x8000 ==> LookupIpcObject(id, objects, generation) == Err(EINVAL)
  {
  }

  /** The lookup reads nothing of a slot but its generation: two arrays of the
      same length whose slots carry the same generations give the same answer
      and the same index. */
  lemma LookupReadsOnlyGenerations<T>(id: int32, objects: seq<T>, others: seq<T>, generation: T -> int16)
    requires |objects| == |others|
    requires forall i :: 0 <= i < |objects| ==> generation(objects[i]) == generation(others[i])
    ensures LookupIpcObject(id, objects, generation).Ok? == LookupIpcObject(id, others, generation).Ok?
    ensures LookupIpcObject(id, objects, generation).Ok? ==>
              LookupIpcObject(id, objects, generation).value.index == LookupIpcObject(id, others, generation).value.index
  {
    var s := SlotBits(id);
    if 0 < s <= |objects| {
      assert generation(objects[s - 1]) == generation(others[s - 1]);
    }
  }

  /** The generation of a message-queue slot. */
  function QueueGeneration(q: MsgQueue): int16 { q.generation }

  /** The generation of a semaphore-set slot. */
  function SemaphoreGeneration(s: Semaphore): int16 { s.generation }

  /** The lookup never reads a queue's `valid` flag: marking the slot at
      `index` valid or invalid changes neither the verdict nor the index, so
      a caller handed a slot must still check `valid` itself. */
  lemma QueueLookupIgnoresValid(id: int32, queues: seq<MsgQueue>, index: nat, valid: bool)
    requires index < |queues|
    ensures var marked := queues[index := queues[index].(valid := valid)];
            && LookupIpcObject(id, marked, QueueGeneration).Ok? == LookupIpcObject(id, queues, QueueGeneration).Ok?
            && (LookupIpcObject(id, marked, QueueGeneration).Ok? ==>
                  LookupIpcObject(id, marked, QueueGeneration).value.index
                  == LookupIpcObject(id, queues, QueueGeneration).value.index)
  {
    var marked := queues[index := queues[index].(valid := valid)];
    LookupReadsOnlyGenerations(id, queues, marked, QueueGeneration);
  }

  /** The same for a semaphore set's `valid` flag. */
  lemma SemaphoreLookupIgnoresValid(id: int32, sets: seq<Semaphore>, index: nat, valid: bool)
    requires index < |sets|
    ensures var marked := sets[index := sets[index].(valid := valid)];
            && LookupIpcObject(id, marked, SemaphoreGeneration).Ok? == LookupIpcObject(id, sets, SemaphoreGeneration).Ok?
            && (LookupIpcObject(id, marked, SemaphoreGeneration).Ok? ==>
                  LookupIpcObject(id, marked, SemaphoreGeneration).value.index
                  == LookupIpcObject(id, sets, SemaphoreGeneration).value.index)
  {
    var marked := sets[index := sets[index].(valid := valid)];
    LookupReadsOnlyGenerations(id, sets, marked, SemaphoreGeneration);
  }

  /** A removed (invalid) queue slot is still handed out, at its own index,
      for the id that matches its generation. */
  lemma LookupMayReturnInvalidQueue(queues: seq<MsgQueue>, index: nat)
    requires index < |queues| && index < 0xFFF
    requires !queues[index].valid && 0 <= queues[index].generation
    ensures var r := LookupIpcObject(EncodeId(index, queues[index].generation as nat), queues, QueueGeneration);
            r.Ok? && r.value.index == index && !r.value.obj.valid
  {
    LookupOfEncodedId(index, queues, QueueGeneration);
  }
}

# System V IPC object lookup and namespace filter

This project models the logic in `src/extension/sysvipc/sysvipc_internal.h` of proot's System V IPC
emulation. That extension keeps message queues and semaphore sets for traced processes itself,
so the host kernel's IPC namespace is never used. The header holds three things:

- **Data model** (`sysvipc_types.dfy`, module `SysvipcTypes`). The records and enumerations
  become Dafny datatypes: message item, message queue, semaphore set, namespace, wait reason,
  wait state and per-tracee config. C integer types become newtypes over their exact ranges
  (`int16`, `uint16`, `int32`, `int64`, `uint64`, `int8`, `byte`), taking a 64-bit target:
  `long`, `size_t` and `word_t` are 64 bits wide. Linked lists and talloc
  arrays become sequences. The namespace pointer held by a tracee's config becomes a reference
  number that is compared by identity.
- **Object lookup** (`ipc_lookup.dfy`, module `IpcLookup`). `LOOKUP_IPC_OBJECT` decodes a 32-bit
  object id and validates it against a slot array. Bits 0-11 hold `index + 1` and bits 12-27 a
  generation. The slot must exist and its `int16_t generation` must equal the decoded
  generation; otherwise the handler returns `-EINVAL`. The macro serves both the queue array and
  the semaphore array, so the lookup is generic in the slot type. It reads each slot's generation
  through a function argument.
- **Namespace filter** (`tracee_filter.dfy`, module `TraceeFilter`).
  `SYSVIPC_FOREACH_TRACEE` walks the tracee list. It runs its body for each tracee whose config
  is non-NULL and points to the given namespace. The model gives the sequence of
  (tracee, config) pairs the body runs with, in the order it runs.

The bit operations are written as arithmetic on the signed 32-bit id. `id & 0xFFF` on a
two's-complement value is the Euclidean remainder by 0x1000. `(id >> 12) & 0xFFFF` is floor
division by 0x1000 followed by remainder by 0x10000, because an arithmetic shift right is floor
division. Packing `(index + 1) | (generation << 12)` adds two disjoint bit fields.

Two consequences of the code are worth stating on their own:

- `generation` is a signed `int16_t` while ids carry an unsigned 16-bit field. The field's
  value lies in 0..0xFFFF and is compared with the sign-extended stored generation. So a slot whose generation is negative can never be
  found, and an id whose generation field is 0x8000 or above is never accepted
  (`NegativeGenerationNeverMatches`).
- Unlike the kernel's own id lookup, the macro never reads the slot's `valid` flag. A removed slot whose generation still matches is handed out, so callers must check
  `valid` themselves (`QueueLookupIgnoresValid`, `SemaphoreLookupIgnoresValid`,
  `LookupMayReturnInvalidQueue`).

Also, `semncnt` and `semzcnt` are one pair per semaphore set, not one per semaphore.

## Model

| member | source | states |
|---|---|---|
| `IpcLookup.SlotBits` | src/extension/sysvipc/sysvipc_internal.h:97 | the index field of an id is in 0..0xFFF, whatever the sign of the id |
| `IpcLookup.GenerationBits` | src/extension/sysvipc/sysvipc_internal.h:103 | the decoded generation is in 0..0xFFFF, never negative |
| `IpcLookup.LowBits` | src/extension/sysvipc/sysvipc_internal.h:97-103 | bits 0-27, the only bits a lookup reads, lie below 0x10000000 |
| `IpcLookup.EncodeId` | src/extension/sysvipc/sysvipc_internal.h:47-49 | the id packing `index + 1` into bits 0-11 and `generation` into bits 12-27 decodes to index field `index + 1` and generation `generation`, and is a positive value below 2^28 |
| `IpcLookup.LookupIpcObject` | src/extension/sysvipc/sysvipc_internal.h:94-106 | every failure is `EINVAL`; a success names the slot `(id & 0xFFF) - 1`, which is inside the array and below 0xFFF, returns that slot's contents, and that slot's generation is non-negative and equals `(id >> 12) & 0xFFFF` |
| `IpcLookup.LookupRejects` | src/extension/sysvipc/sysvipc_internal.h:97-105 | an id is rejected with `EINVAL` when its low 12 bits are 0, when they exceed the array length, or when the slot's generation differs from the id's generation field |
| `IpcLookup.LookupIgnoresTopBits` | src/extension/sysvipc/sysvipc_internal.h:96-106 | two ids that agree on bits 0-27 get the same answer, so bits 28-31 never matter |
| `IpcLookup.LookupOfEncodedId` | src/extension/sysvipc/sysvipc_internal.h:94-106 | round trip: the id encoding an in-range slot (index below 0xFFF) with its non-negative generation is accepted and yields that index and that slot |
| `IpcLookup.StaleIdRejected` | src/extension/sysvipc/sysvipc_internal.h:103-105 | an id encoded with a generation the slot no longer holds is rejected with `EINVAL` |
| `IpcLookup.AcceptedIdIsEncoding` | src/extension/sysvipc/sysvipc_internal.h:96-106 | every accepted id is, in bits 0-27, the encoding of the returned index with the returned slot's generation |
| `IpcLookup.LookupAcceptsExactlyEncodings` | src/extension/sysvipc/sysvipc_internal.h:94-106 | an id is accepted if and only if its bits 0-27 encode some slot below index 0xFFF together with that slot's current non-negative generation |
| `IpcLookup.NegativeGenerationNeverMatches` | src/extension/sysvipc/sysvipc_internal.h:103-105 | a slot whose `int16_t` generation (lines 26 and 38) is negative is never returned, and an id whose generation field is 0x8000 or above is always rejected |
| `IpcLookup.LookupReadsOnlyGenerations` | src/extension/sysvipc/sysvipc_internal.h:94-106 | two arrays of the same length whose slots carry the same generations give the same verdict and the same index for every id |
| `IpcLookup.QueueLookupIgnoresValid` | src/extension/sysvipc/sysvipc_internal.h:24-30 | setting or clearing a queue slot's `valid` flag changes neither the verdict nor the index of any lookup |
| `IpcLookup.SemaphoreLookupIgnoresValid` | src/extension/sysvipc/sysvipc_internal.h:36-44 | setting or clearing a semaphore set's `valid` flag changes neither the verdict nor the index of any lookup |
| `IpcLookup.LookupMayReturnInvalidQueue` | src/extension/sysvipc/sysvipc_internal.h:94-106 | a queue slot marked invalid, at any index below 0xFFF with a non-negative generation, is still returned at that index for the id that matches its generation |
| `TraceeFilter.ForeachTracee` | src/extension/sysvipc/sysvipc_internal.h:115-120 | the loop body runs no more times than there are listed tracees, and only with a listed tracee whose config is non-NULL and names the namespace, passing that tracee's config |
| `TraceeFilter.ForeachConcat` | src/extension/sysvipc/sysvipc_internal.h:116 | walking one list after another makes the visits of the first walk followed by those of the second |
| `TraceeFilter.ForeachStep` | src/extension/sysvipc/sysvipc_internal.h:116-120 | each next tracee in the list is appended after all earlier visits when the guard holds, and skipped otherwise |
| `TraceeFilter.ForeachVisitsExactly` | src/extension/sysvipc/sysvipc_internal.h:117-120 | a (tracee, config) pair is visited if and only if the tracee is listed, has a non-NULL config naming the namespace, and the config is that tracee's |
| `TraceeFilter.ForeachPosition` | src/extension/sysvipc/sysvipc_internal.h:115-120 | a tracee that passes the guard is visited, right after the visits made for the tracees before it in the list |
| `TraceeFilter.ForeachKeepsOrder` | src/extension/sysvipc/sysvipc_internal.h:115-120 | of two tracees that pass the guard, the one earlier in the list is visited strictly earlier |

## Left out

- Reading the id with `peek_reg(tracee, CURRENT, SYSARG_1)` (line 96): the lookup takes the 32-bit `int object_id` directly. Truncating the 64-bit register word to `int` is not modelled.
- `talloc_array_length` and its `(int)` cast (line 98): an array is a sequence and its length is `|objects|`. A length of 2^31 or more is not modelled.
- `IpcLookup.LookupIpcObject`: the macro assigns `out_index` and `out_object` before the generation check. Those writes on the failing path are not modelled, because the enclosing handler returns `-EINVAL` at once.
- `TraceeFilter.ForeachTracee`: the visits are computed from the tracee list and the configs as they stand before the walk. The body is assumed to change neither the tracee list nor any config's `ipc_namespace`, although the C guard re-reads both at every step. `out_config` is a value here, not a pointer: the body's writes through it are not modelled.
- `LIST_FOREACH` over `get_tracees_list_head()` and `sysvipc_get_config` (lines 116-118): the tracee list is a sequence of tracee references and the configs are a partial map. A tracee outside the map has a NULL config.
- The handlers and wake functions declared at lines 122-133 (`sysvipc_wake_tracee`, `sysvipc_msgget`, `sysvipc_msgsnd`, `sysvipc_msgrcv`, `sysvipc_msgctl`, `sysvipc_semget`, `sysvipc_semop`, `sysvipc_semop_timedout`, `sysvipc_semctl`): only their prototypes are part of this model. Their bodies hold message selection, atomic semaphore application, removal wake-ups, slot allocation and generation bumps, and none of that is modelled.
- Transitions of the wait-state machine: lines 60-67 only list the states. `WaitState` is declared and nothing is proved about it.
- `struct msqid_ds stats` (line 29), the `semop_sops` pointer (line 84) and the raw `mtext`/`sems` memory (lines 18, 40): kernel ABI layout and tracee or arena pointers. Message text is a byte sequence and semaphore values are a sequence of `uint16`.
- Whether `char semop_wait_type` is signed depends on the platform. It is modelled as a signed byte.

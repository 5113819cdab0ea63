/**
 * Data model of the System V IPC emulation: the records and enumerations
 * declared in src/extension/sysvipc/sysvipc_internal.h.
 *
 * C integer types become newtypes over their exact ranges, pointers to
 * singly-linked lists and talloc arrays become sequences, and a pointer used
 * only for its identity (the namespace a tracee belongs to) becomes a
 * reference number compared by equality.
 */
module SysvipcTypes {

  /** `int16_t` */
  newtype int16 = x: int | -0x8000 <= x < 0x8000
  /** `uint16_t` */
  newtype uint16 = x: int | 0 <= x < 0x1_0000
  /** `int32_t`, and the C `int` of the 32- and 64-bit targets */
  newtype int32 = x: int | -0x8000_0000 <= x < 0x8000_0000
  /** `long` on the 64-bit targets */
  newtype int64 = x: int | -0x8000_0000_0000_0000 <= x < 0x8000_0000_0000_0000
  /** `word_t` and `size_t` on the 64-bit targets */
  newtype uint64 = x: int | 0 <= x < 0x1_0000_0000_0000_0000
  /** `char` as a signed byte */
  newtype int8 = x: int | -0x80 <= x < 0x80
  /** one byte of message text */
  newtype byte = x: int | 0 <= x < 0x100

  /** The outcome of an operation that either yields a value or makes the
      enclosing syscall handler return `-errno`. */
  datatype Result<+T> = Ok(value: T) | Err(errno: nat)

  /** Linux `EINVAL` */
  const EINVAL: nat := 22

  /** One message of a queue (`struct SysVIpcMsgQueueItem`); the STAILQ link
      is the item's position in `MsgQueue.items`. */
  datatype MsgQueueItem = MsgQueueItem(mtype: int64, mtext: seq<byte>, mtextLength: uint64)

  /** One message-queue slot (`struct SysVIpcMsgQueue`); the kernel
      statistics block `stats` is not modelled. */
  datatype MsgQueue = MsgQueue(key: int32, generation: int16, valid: bool, items: seq<MsgQueueItem>)

  /** One semaphore-set slot (`struct SysVIpcSemaphore`). `semncnt` and
      `semzcnt` are one pair for the whole set, not one per semaphore. */
  datatype Semaphore = Semaphore(
    key: int32,
    generation: int16,
    valid: bool,
    sems: seq<uint16>,
    nsems: int32,
    semncnt: int32,
    semzcnt: int32)

  /** `struct SysVIpcNamespace`: the object with id `i` lives at `queues[i - 1]`
      (respectively `semaphores[i - 1]`). */
  datatype Namespace = Namespace(queues: seq<MsgQueue>, semaphores: seq<Semaphore>)

  /** The identity of a namespace (the address a tracee's config points to). */
  type NamespaceRef = nat

  /** `enum SysVIpcWaitReason` */
  datatype WaitReason = NotWaiting | WaitQueueRecv | WaitSemop

  /** `enum SysVIpcWaitState`: the phases of the emulated blocking protocol,
      declared here without transitions. */
  datatype WaitState =
    | StateNotWaiting
    | RestartedIntoPpollCanceled
    | RestartedIntoPpoll
    | EnteredPpoll
    | SignaledPpoll
    | EnteredGetpid

  /** Per-tracee state of the extension (`struct SysVIpcConfig`); the
      `semop_sops` pointer into tracee-side operations is not modelled. */
  datatype Config = Config(
    ipcNamespace: NamespaceRef,
    waitReason: WaitReason,
    waitState: WaitState,
    statusAfterWait: uint64,
    waitingObjectIndex: uint64,
    msgrcvMsgp: uint64,
    msgrcvMsgsz: uint64,
    msgrcvMsgtyp: int32,
    msgrcvMsgflg: int32,
    semopNsops: uint64,
    semopWaitType: int8)
}

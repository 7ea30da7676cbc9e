/** The recorder worker as a value: the file it appends to and the entries it still owes. */
module RecorderModel {
  import opened Jsonl
  import opened Numbers

  /** A failed write leaves the first `kept` bytes of its batch in the file: none when the file could
      not be opened, all of them when only the final sync failed. */
  datatype WriteFault = NoFault | Fault(kept: nat)

  datatype Worker = Worker(log: seq<Byte>, pending: seq<SessionEntry>)

  function KeptBytes(codec: Codec, entries: seq<SessionEntry>, fault: WriteFault): (kept: nat)
    ensures kept <= |BatchBytes(codec, entries)|
  {
    match fault
    case NoFault => |BatchBytes(codec, entries)|
    case Fault(kept) => if kept <= |BatchBytes(codec, entries)| then kept else |BatchBytes(codec, entries)|
  }

  function LogAfterWrite(codec: Codec, log: seq<Byte>, entries: seq<SessionEntry>, fault: WriteFault): seq<Byte> {
    log + BatchBytes(codec, entries)[..KeptBytes(codec, entries, fault)]
  }

  predicate PersistSucceeds(worker: Worker, fault: WriteFault) {
    worker.pending == [] || fault.NoFault?
  }

  function PersistPending(codec: Codec, worker: Worker, fault: WriteFault): Worker {
    if worker.pending == [] then worker
    else Worker(LogAfterWrite(codec, worker.log, worker.pending, fault),
                if fault.NoFault? then [] else worker.pending)
  }

  function BufferEntries(worker: Worker, entries: seq<SessionEntry>): Worker {
    worker.(pending := worker.pending + entries)
  }
}

/** The client's buffers, and queues of them read as streams of bytes. */
module Buffers {
  import opened Bytes

  type BufId = nat

  /** `struct uart_data_t`: the bytes of the buffer and how many of them are meant. */
  datatype Buffer = Buffer(data: seq<Byte>, len: nat)

  const LF: Byte := 10
  const CR: Byte := 13

  /** The bytes of a buffer that the radio sends. */
  function Meant(id: BufId, pool: map<BufId, Buffer>): seq<Byte> {
    if id in pool && pool[id].len <= |pool[id].data| then pool[id].data[..pool[id].len] else []
  }

  function Flatten(queue: seq<BufId>, pool: map<BufId, Buffer>): seq<Byte>
    decreases |queue|
  {
    if |queue| == 0 then [] else Flatten(queue[..|queue| - 1], pool) + Meant(queue[|queue| - 1], pool)
  }

  /** Changes to buffers that are not queued do not show in the queue. */
  lemma {:induction false} FlattenFrame(queue: seq<BufId>, pool: map<BufId, Buffer>, pool': map<BufId, Buffer>)
    requires forall id :: id in queue ==> id in pool && id in pool' && pool[id] == pool'[id]
    ensures Flatten(queue, pool) == Flatten(queue, pool')
    decreases |queue|
  {
    if |queue| > 0 { FlattenFrame(queue[..|queue| - 1], pool, pool'); }
  }

  lemma {:induction false} FlattenFirst(queue: seq<BufId>, pool: map<BufId, Buffer>)
    requires |queue| > 0
    ensures Flatten(queue, pool) == Meant(queue[0], pool) + Flatten(queue[1..], pool)
    decreases |queue|
  {
    var n := |queue| - 1;
    if n == 0 {
      assert queue[..0] == [] && queue[1..] == [];
    } else {
      FlattenFirst(queue[..n], pool);
      assert queue[..n][1..] == queue[1..][..n - 1];
    }
  }

  lemma FlattenAppend(queue: seq<BufId>, id: BufId, pool: map<BufId, Buffer>)
    ensures Flatten(queue + [id], pool) == Flatten(queue, pool) + Meant(id, pool)
  {
    assert (queue + [id])[..|queue|] == queue;
  }

  predicate NoDuplicates(queue: seq<BufId>) {
    forall i, j :: 0 <= i < j < |queue| ==> queue[i] != queue[j]
  }
}

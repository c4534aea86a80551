/** The values that replicas and clients exchange: bytes, 64-bit integers, transactions and votes. */
module Types {
  datatype Option<+T> = None | Some(value: T) {
    function GetOr(default: T): T {
      if Some? then value else default
    }
  }

  type Byte = n: nat | n < 256
  type Bytes = seq<Byte>

  const TWO_32: nat := 0x1_0000_0000
  const TWO_64: nat := 0x1_0000_0000_0000_0000

  type U64 = n: nat | n < 0x1_0000_0000_0000_0000
  const U64_MAX: U64 := 0xFFFF_FFFF_FFFF_FFFF

  type ReplicaId = U64
  type Timestamp = U64
  type SequenceNumber = U64

  /** A timestamp per replica. */
  type Row = map<ReplicaId, Timestamp>

  datatype Transaction = Transaction(data: Bytes)

  /** A vote as it travels on the wire; a message field may be missing, hence the optional transaction. */
  datatype Vote = Vote(
    replicaId: ReplicaId,
    timestamp: Timestamp,
    sequenceNumber: SequenceNumber,
    signature: Bytes,
    transaction: Option<Transaction>)

  /** What an absent vote decodes to. */
  const DEFAULT_VOTE: Vote := Vote(0, 0, 0, [], None)

  /** The ASCII bytes of "HEARTBEAT". */
  const HEARTBEAT: Bytes := [72, 69, 65, 82, 84, 66, 69, 65, 84]

  /** These are the bytes of the word. */
  lemma HeartbeatIsSpelledOut()
    ensures |HEARTBEAT| == |"HEARTBEAT"| && forall i :: 0 <= i < |HEARTBEAT| ==> HEARTBEAT[i] == "HEARTBEAT"[i] as int
  {
    assert |"HEARTBEAT"| == 9;
  }

  predicate IsHeartbeat(tx: Transaction) {
    tx.data == HEARTBEAT
  }

  /** The part of a vote that its signature covers, apart from the sequence number. */
  datatype Content = Content(tx: Transaction, ts: Timestamp)

  function ContentOf(v: Vote): Content
    requires v.transaction.Some?
  {
    Content(v.transaction.value, v.timestamp)
  }
}

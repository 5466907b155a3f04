/** Partition routing (internal/wire/partition.go) over the seeded hash. */
module Routing {
  import opened Words
  import opened XXHash
  import opened XXHashInjective

  const PARTITION_SEED: U64 := 0x9E3779B185EBCA87

  /** The partition of a key. The source panics on a zero count; callers must not pass one. */
  function PartitionOf(key: Bytes, partitionCount: U32): (p: U32)
    requires partitionCount != 0
    ensures p < partitionCount
  {
    XXH64(key, PARTITION_SEED) % partitionCount
  }

  method Route(key: Bytes, partitionCount: U32) returns (p: U32)
    requires partitionCount != 0
    ensures p == PartitionOf(key, partitionCount)
  {
    var hash := Hash(key, PARTITION_SEED);
    p := hash % partitionCount;
  }

  /** Routing reaches every partition through any one 8-byte tail lane, whatever the rest of the key. */
  lemma EveryPartitionReached(key: Bytes, t: nat, p: U32, partitionCount: U32) returns (k: Bytes)
    requires IsLane(|key|, t) && p < partitionCount
    ensures |k| == |key| && AgreeOff(key, k, t) && PartitionOf(k, partitionCount) == p
  {
    hide XXH64, FillLane, TailReads, TailRead, AgreeOff;
    k := FillLane(key, t, p, PARTITION_SEED);
    LaneReachesEveryHash(key, t, p, PARTITION_SEED, k);
    SplitUnique(p / partitionCount, p % partitionCount, 0, p, partitionCount);
  }
}

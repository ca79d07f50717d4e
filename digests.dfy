/** The checksum abstraction: an algorithm chosen by name from a registry,
    and a digest object with a per-file ("local") and a whole-run ("global")
    state fed by the same writes. The concrete hash functions are not part of
    this model: an algorithm is its output size and an arbitrary function from
    the bytes written to the sum. */
module Digests {
  import opened Wrappers
  import opened Words

  datatype Algorithm = Algorithm(size: nat, sum: seq<byte> -> seq<byte>)

  /** The algorithms NewDigest knows, by name. */
  type Registry = map<seq<byte>, Algorithm>

  /** Every sum has the algorithm's declared output size. */
  ghost predicate SizeExact(alg: Algorithm)
  {
    forall data :: |alg.sum(data)| == alg.size
  }

  class Digest {
    const alg: Algorithm
    /** Bytes written since the last Reset. */
    var localLog: seq<byte>
    /** Bytes written since construction; never cleared. */
    var globalLog: seq<byte>

    constructor (alg: Algorithm)
      ensures this.alg == alg && localLog == [] && globalLog == []
    {
      this.alg := alg;
      localLog := [];
      globalLog := [];
    }

    /** The io.Writer side: every byte goes to both states. */
    method Write(p: seq<byte>)
      modifies this
      ensures localLog == old(localLog) + p
      ensures globalLog == old(globalLog) + p
    {
      localLog := localLog + p;
      globalLog := globalLog + p;
    }

    /** Clears the local state only. */
    method Reset()
      modifies this`localLog
      ensures localLog == []
    {
      localLog := [];
    }

    /** The sum of the bytes written since the last Reset. */
    function Local(): (h: seq<byte>)
      reads this
      ensures SizeExact(alg) ==> |h| == Size()
    {
      alg.sum(localLog)
    }

    /** The sum of every byte written since construction. */
    function Global(): (h: seq<byte>)
      reads this
      ensures SizeExact(alg) ==> |h| == Size()
    {
      alg.sum(globalLog)
    }

    function Size(): nat
    {
      alg.size
    }
  }

  /** NewDigest: fails exactly when the name is not registered. */
  method NewDigest(name: seq<byte>, registry: Registry) returns (d: Option<Digest>)
    ensures d.None? <==> name !in registry
    ensures d.Some? ==> fresh(d.value) && d.value.alg == registry[name]
    ensures d.Some? ==> d.value.localLog == [] && d.value.globalLog == []
  {
    if name in registry {
      var dg := new Digest(registry[name]);
      d := Some(dg);
    } else {
      d := None;
    }
  }
}

/** An incremental SHA-256 context. */
module HashContexts {
  import opened Bytes

  /** SHA256_CTX: all that matters of it is the bytes absorbed since sha256_Init. */
  class HashContext {
    var absorbed: seq<byte>

    constructor ()
      ensures absorbed == []
    {
      absorbed := [];
    }

    method Init()
      modifies this
      ensures absorbed == []
    {
      absorbed := [];
    }

    method Update(bytes: seq<byte>)
      modifies this
      ensures absorbed == old(absorbed) + bytes
    {
      absorbed := absorbed + bytes;
    }

    method Final(h: Hash) returns (digest: Digest)
      ensures digest == h(absorbed)
    {
      digest := h(absorbed);
    }
  }
}

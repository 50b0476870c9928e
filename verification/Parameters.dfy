/** Defaults and sanity checks of the module parameters. */
module Parameters {
  import opened Words
  import opened Messages

  const DEFAULT_MAX_PUBKEY_SIZE_BYTES: Uint64 := 512
  const DEFAULT_MIN_RSA_KEY_BITS := 1024
  const MAX_DKIM_PROOF_SIZE_BYTES := 4 * 1024

  function DefaultParams(): (p: Params)
    ensures ValidParams(p)
  {
    Params(1, DEFAULT_MAX_PUBKEY_SIZE_BYTES, DefaultPublicInputIndices())
  }

  function DefaultPublicInputIndices(): (i: PublicInputIndices)
    ensures ValidIndices(i)
  {
    PublicInputIndices(88, 68, IndexRange(0, 9), 9, IndexRange(12, 68), IndexRange(70, 79), IndexRange(79, 88))
  }

  predicate ValidRange(r: IndexRange) {
    r.start < r.end
  }

  predicate ValidIndices(p: PublicInputIndices) {
    && p.minLength != 0
    && ValidRange(p.dkimDomainRange) && ValidRange(p.txBytesRange)
    && ValidRange(p.emailHostRange) && ValidRange(p.emailSubjectRange)
    && p.emailHashIndex < p.minLength && p.dkimHashIndex < p.minLength
    && p.dkimDomainRange.end <= p.minLength && p.txBytesRange.end <= p.minLength
    && p.emailHostRange.end <= p.minLength && p.emailSubjectRange.end <= p.minLength
  }

  predicate ValidParams(p: Params) {
    p.maxPubkeySizeBytes != 0 && p.vkeyIdentifier != 0 && ValidIndices(p.publicInputIndices)
  }

  /** A zero size cap stands for the default one. */
  function WithDefaultSize(p: Params): (r: Params)
    ensures r.maxPubkeySizeBytes != 0
  {
    if p.maxPubkeySizeBytes == 0 then p.(maxPubkeySizeBytes := DEFAULT_MAX_PUBKEY_SIZE_BYTES) else p
  }
}

/** The digest used throughout the pipeline: SHA-256 over the UTF-8 encoding of a
    string, printed as lower-case hex and cut to its first 16 characters. The
    digest algorithm itself is not modelled; every operation takes the hash
    function as a parameter of type Hasher, which promises only the length of
    its output. */
module Digests {

  /** Number of hex characters kept from the 64-character SHA-256 hex string. */
  const DigestLength: nat := 16

  /** A truncated digest: exactly DigestLength characters. Which characters
      they are (lower-case hex) plays no part in any property proved here. */
  type Digest = d: string | |d| == DigestLength witness "0000000000000000"

  /** Any deterministic function from strings to truncated digests. */
  type Hasher = string -> Digest
}

/** Hashed bearer credentials. The hash is collision free: a hash is its preimage, seen only through equality. */
module Credentials {
  datatype TokenHash = HashOf(raw: string)
}

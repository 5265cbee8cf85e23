module NodePrefix {
  import opened Bytes

  /** The leading bytes of a mesh node's public key, by which it is addressed. */
  datatype Prefix = Prefix(bytes: seq<byte>)
}

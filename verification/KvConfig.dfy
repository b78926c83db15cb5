/** Settings of the key-value database. */
module KvConfig {
  /** FDB_KV_NAME_MAX */
  const NAME_MAX: nat := 64
}

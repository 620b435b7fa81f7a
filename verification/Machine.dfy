/** Limits of the machine's words and the byte that ends a C string. */
module Machine {
  const NUL := '\0'
  const UINT := 0x1_0000_0000
  const INT_LIMIT := 0x8000_0000
}

/** The sizes AES accepts. */
module Aes {

  const AES_BLOCK_SIZE: nat := 16

  predicate AesKeySize(n: nat) {
    n == 16 || n == 24 || n == 32
  }
}

/** Keys of a symbol table: the bytes of a NUL-terminated C string. */
module Keys {

  /** One byte of a C string body: any byte except the terminating NUL. Bytes
      are read as unsigned values 1..255. */
  type Char = c: int | 1 <= c < 256 witness 1

  /** A key is the string up to, not including, its NUL terminator. Two keys
      compare equal under `strcmp` exactly when they are equal sequences. */
  type Key = seq<Char>
}

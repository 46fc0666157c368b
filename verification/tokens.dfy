/** Bytes and the literal grammar tokens of the HTTP/1.1 wire format
    (section 2 of RFC 9112): CRLF, SP, the header colon and the
    version prefix `HTTP/`. */
module Tokens {

  /** One octet. A `char` below 256 stands for the byte with that value, so
      ASCII string literals can be written as byte strings directly. */
  type Byte = c: char | c as int < 256 witness ' '

  /** A byte string: Go's `[]byte`, and also Go's `string`, which is a byte
      sequence too. */
  type Bytes = seq<Byte>

  datatype Option<T> = None | Some(value: T)

  const Cr: Byte := '\r'
  const Lf: Byte := '\n'
  const Sp: Byte := ' '
  const Colon: Byte := ':'
  const Crlf: Bytes := "\r\n"
  const HttpVersionPrefix: Bytes := "HTTP/"
}

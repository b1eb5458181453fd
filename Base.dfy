/** Value types shared by every part of the proxy model. */
module Base {

  /** One octet on the wire. */
  type byte = x: int | 0 <= x < 0x100

  /** Rust's `u16`, the type of a TCP port. */
  type u16 = x: int | 0 <= x < 0x1_0000

  datatype Option<T> = None | Some(value: T)

  datatype Result<T, E> = Ok(value: T) | Err(error: E)

  /** The two streams a connection owns: the browser side and the SOCKS5 tunnel. */
  datatype Side = Client | Upstream

  /** The outcome of one `read` call: the bytes delivered (none means the peer closed) or an I/O error. */
  datatype ReadResult = Got(bytes: seq<byte>) | Failed
}

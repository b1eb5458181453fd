/** The fixed reply that tells the browser the tunnel is ready. */
module Response {
  import opened Base

  const OkResponseText: string := "HTTP/1.1 200 Connection established\r\nProxy-Connection: Keep-Alive\r\n\r\n"

  /**
   * The UTF-8 encoding of a 7-bit text: one octet per character, holding its
   * code. (Every character of the reply is below 0x80, so the reduction
   * modulo 0x80 never changes one.)
   */
  function AsciiBytes(s: string): (b: seq<byte>)
    ensures |b| == |s|
  {
    seq(|s|, i requires 0 <= i < |s| => s[i] as int % 0x80)
  }

  /** The reply as it goes on the wire. */
  const OkResponse: seq<byte> := AsciiBytes(OkResponseText)

  /**
   * Copies the reply into the front of `buf` and returns its length. The
   * caller must supply at least 69 bytes (the slice index panics otherwise);
   * the rest of the buffer keeps whatever it held.
   */
  method FormHttpResponse(buf: array<byte>) returns (len: nat)
    requires buf.Length >= 69
    modifies buf
    ensures len == |OkResponse| == 69
    ensures buf[..len] == OkResponse
    ensures buf[len..] == old(buf[len..])
  {
    len := |OkResponse|;
    for i := 0 to len
      invariant buf[..i] == OkResponse[..i]
      invariant buf[len..] == old(buf[len..])
    {
      buf[i] := OkResponse[i];
    }
  }
}

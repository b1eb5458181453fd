# HTTP CONNECT to SOCKS5 bridge — a Dafny model

The program (UmbrellaPortal) listens for browsers that use it as an HTTP proxy.
Each accepted connection gets its own task. The task reads one `CONNECT host:port`
request, opens a tunnel to that target through an upstream SOCKS5 server
(RFC 1928), answers the browser with a fixed `200 Connection established` reply,
and then relays bytes both ways until either side closes or fails.

This project models that per-connection logic with every piece of I/O turned into an input:

- `Base.dfy`: bytes, `u16` ports, `Option`/`Result`, the two sides of a connection, and the outcome of one `read`.
- `Response.dfy`: the reply text and `FormHttpResponse`, which writes it in place into the front of a buffer.
- `Numerals.dfy`: decimal printing (`to_string`) and `str::parse::<u16>`. The parse follows the standard library: one leading `+` is allowed, leading zeros are allowed, and the value must be below 65536.
- `ConnectParser.dfy`: `process_http_connect` after the HTTP parser. It checks the method case-insensitively and requires HTTP/1.0 or 1.1. It then picks the first IPv4 resolution (a `while` loop, as the source's `for` loop), splits on `:` and parses the port.
- `RelayEngine.dfy`: the relay loop. The order in which reads complete is a sequence of events, and each event is handled deterministically. Each direction has its own 2048-byte buffer, reused for every read.
- `Connection.dfy`: the spawned task. `Handshake` covers everything up to the `connect_phase` test, with the 1024-byte request buffer. `ConnectionTask` is the whole task: handshake, the `unwrap` of the tunnel, then the relay.

The effects of the task are recorded as logs, each kept in order:

- names handed to the resolver;
- targets handed to the SOCKS5 connector;
- writes offered to each stream;
- shutdowns requested.

The task's state is in local variables in the source (`connect_phase`, `s5stream` and the three buffers), so the model uses methods with locals and freshly allocated arrays, not a class.

Behaviour of the code that the model keeps as written:

- The authority is split on the FIRST `:`, not the last (`ExtractCutsAtFirstColon`).
- Without an IPv4 resolution, the raw request target is split. There is no fallback to the first resolved address. So an IPv6 literal such as `[::1]:443` fails (`ExtractIpv6Literal`); in the source, this failure is a panic of the task.
- A request that does not parse, and a zero-length first read, request no shutdown. The task just ends.
- When the SOCKS5 connection fails, only the browser stream is named for shutdown. The half-opened upstream socket is dropped inside the connector.

## Model

| member | source | states |
|---|---|---|
| `Response.FormHttpResponse` | src/main.rs:189-194 | needs a buffer of at least 69 bytes; returns 69; afterwards `buf[..69]` is the literal reply and every byte from index 69 on is unchanged |
| `Numerals.Decimal` | src/main.rs:172 | printing gives a non-empty digit string without leading zeros, and that string denotes `n` |
| `Numerals.ParseU16` | src/main.rs:178 | a string is accepted only if it is digits with at most one leading `+`, so an accepted port piece contains no `:` |
| `Numerals.ParseU16Decimal` | src/main.rs:178 | reading back a printed port gives the same port |
| `ConnectParser.ToUpper` | src/main.rs:166 | `to_uppercase`: same length, and no lower-case ASCII letter is left |
| `ConnectParser.MethodAccepted` | src/main.rs:166 | the acceptance test; an accepted method has seven characters and the version is 0 or 1. Its full meaning is `MethodAcceptedIff` |
| `ConnectParser.SocketAddrString` | src/main.rs:172 | `to_string` of an IPv4 socket address contains exactly one `:`, the one before the port. `ExtractSocketAddr` shows that splitting undoes it |
| `ConnectParser.PreferredAuthority` | src/main.rs:168-175 | the authority to split is either the request target or the printed form of some IPv4 result. `PreferredAuthorityIsFirstIpv4` pins it to the first one |
| `ConnectParser.ExtractTarget` | src/main.rs:176-178 | a successful extraction gives a colon-free host that is a prefix of the authority; any failure is a missing port piece or one that is not a u16 (non-numeric, empty, or 65536 and above). Its full meaning is in `ExtractWithoutColon`, `ExtractAtFirstColon`, `ExtractCutsAtFirstColon` and `ExtractRoundTrip` |
| `ConnectParser.ConnectResult` | src/main.rs:162-184 | success needs an accepted method and version and a successful resolution; a rejected request gives `NotConnect`. The end-to-end results are `ConnectPrefersIpv4` and `ConnectKeepsPath` |
| `ConnectParser.MethodAcceptedIff` | src/main.rs:166 | a request is accepted iff its method spells `CONNECT` in any mix of cases and its version is HTTP/1.0 or HTTP/1.1 (both directions) |
| `ConnectParser.Ipv4String` | src/main.rs:171-172 | the dotted-quad form of an IPv4 address contains no `:` |
| `ConnectParser.PreferredAuthorityIsFirstIpv4` | src/main.rs:168-175 | without IPv4 results the chosen authority is the request target unchanged; otherwise it is the printed form of the FIRST IPv4 result |
| `ConnectParser.PreferredAuthorityWithoutIpv4` | src/main.rs:168-175 | when no resolution is IPv4, the authority is the request target unchanged |
| `ConnectParser.PreferredAuthorityAtFirstIpv4` | src/main.rs:168-175 | when `addrs[i]` is the first IPv4 resolution, the authority is its printed form |
| `ConnectParser.ChooseAuthority` | src/main.rs:168-175 | the loop that overwrites `host_addr` and breaks returns exactly the preferred authority |
| `ConnectParser.Split` | src/main.rs:176 | `split(':')` yields at least one piece, no piece contains the separator, and joining the pieces with it gives the input back |
| `ConnectParser.SplitWithoutSeparator` | src/main.rs:176 | a string without the separator splits into itself alone |
| `ConnectParser.SplitAtFirstSeparator` | src/main.rs:176 | the piece before the first separator is split off and the remainder is split on its own |
| `ConnectParser.ExtractWithoutColon` | src/main.rs:176-178 | an authority with no `:` has no port piece and fails (the source panics on `slices[1]`) |
| `ConnectParser.ExtractAtFirstColon` | src/main.rs:176-179 | for `host:rest` with a colon-free host, the result is that host and the u16 read from `rest` up to its next colon, or a port error |
| `ConnectParser.ExtractCutsAtFirstColon` | src/main.rs:176-179 | every successful extraction returns a colon-free host that is exactly the text before the authority's first `:` |
| `ConnectParser.ExtractRoundTrip` | src/main.rs:176-179 | for a host without `:` and any port p, extracting `host + ":" + decimal(p)` yields exactly `(host, p)` |
| `ConnectParser.ExtractSocketAddr` | src/main.rs:171-179 | a printed IPv4 socket address is split back into its dotted quad and its port |
| `ConnectParser.ExtractIpv6Literal` | src/main.rs:168-178 | the IPv6 literal authority `[::1]:443` is cut at its first colon and fails with a port error |
| `ConnectParser.ProcessHttpConnect` | src/main.rs:162-184 | a rejected method or version gives an error and hands nothing to the resolver; an accepted one hands exactly the request target to it; a resolver error is an error; otherwise the preferred authority is split |
| `ConnectParser.ConnectPrefersIpv4` | src/main.rs:166-179 | an accepted request whose target resolves to some IPv4 address is sent to the first one, with that address's port |
| `ConnectParser.ConnectKeepsPath` | src/main.rs:166-179 | with no IPv4 result, an accepted `host:port` target yields exactly `(host, port)` |
| `RelayEngine.ReadInto` | src/main.rs:113 | a completed read of n bytes leaves exactly those bytes in `buf[..n]` |
| `RelayEngine.FirstEnd` | src/main.rs:111-152 | the index of the first zero-length or failed read; every earlier read delivered data |
| `RelayEngine.Forwarded` | src/main.rs:116-118 | the chunks offered from one side are non-empty and no more numerous than the reads |
| `RelayEngine.ShutdownOrder` | src/main.rs:119-147 | a read of zero bytes or an error on either side names both streams for shutdown, each exactly once |
| `RelayEngine.RunRelay` | src/main.rs:106-152 | the upstream is offered exactly the browser's non-empty reads before the first ending read, in order, and symmetrically for the browser; the loop ends iff some read returned 0 or an error, and then it requests shutdown of both streams in the source's order |
| `RelayEngine.ForwardedStep` | src/main.rs:116-118 | one more data read appends only its own chunk, and only to its own direction |
| `RelayEngine.ForwardedAppend` | src/main.rs:111-152 | forwarding keeps order: the chunks of a concatenation of events are the chunks of each part, in turn |
| `RelayEngine.ForwardedOwnStream` | src/main.rs:112-150 | on any list of events, the chunks one side forwards depend only on that side's reads; where the relay stops is a separate matter, decided by `FirstEnd` over both sides |
| `RelayEngine.ForwardedIgnoresInterleaving` | src/main.rs:112-150 | two schedules whose relays consumed the same reads on one side, each up to its own stopping point, forward the same chunks from that side; the stopping point itself depends on the interleaving |
| `RelayEngine.EventsAfterEndIgnored` | src/main.rs:119-128 | after a read of 0 bytes or an error, later events change neither the end point nor the events consumed |
| `Connection.HandshakeShutdowns` | src/main.rs:77-101 | the upstream is named only after it was opened and the reply write failed; the browser is named on a read error and on every failure after a target was parsed; a closed browser or an unparsable request names nothing; no stream is named twice |
| `Connection.Handshake` | src/main.rs:54-103 | the 200 reply is offered exactly when the SOCKS5 connect succeeded for the parsed target; `connect_phase` becomes false exactly when that reply was also written, and then `s5stream` holds the tunnel to that target (otherwise it is empty) |
| `Connection.ConnectionTask` | src/main.rs:53-154 | the relay is entered exactly when the tunnel opened and the reply was written; the browser is offered the reply and then the upstream's data; the upstream is offered the browser's data in order; shutdowns are the handshake's followed by the relay's; a zero-length read or parse error never enters the relay |

## Left out

- Process startup: argument parsing, loading the JSON configuration, binding and accepting, and spawning tasks (src/main.rs:38-53). This is runtime plumbing.
- The HTTP request parser is a foreign library. Its result (method, version, path) is an input to the model. Its `unwrap`s panic on malformed or partial input, and it is handed the whole 1024-byte buffer rather than the bytes read. The model assumes it produced a request and does not relate it to the bytes read.
- Name resolution is network I/O. It is an input function from the request target to a list of addresses or a failure.
- The SOCKS5 negotiation itself, and the TCP connect to the SOCKS5 server (src/main.rs:199-210), belong to an external library. The connector is an input that says, for each target, whether a tunnel was established.
- Upper-casing is modelled on ASCII letters only. The request parser accepts only token characters in the method, so this agrees with Rust's full Unicode upper-casing for every method it can deliver.
- Panics are modelled as errors: the `slices[1]` index and the port `unwrap` become the `MissingPort` and `BadPort` errors. In the source they abort the task; in the model they take the parse-error path, which ends the task with no shutdown and no relay, just as the abort does.
- Scheduling of the two relay reads (`select!`), fairness and liveness are left out. The model sees only the order in which reads complete, as a finite event sequence, so it does not show that one direction keeps flowing while the other stalls.
- Shutdown and flush effects are left out. Several `shutdown()` calls are never awaited, so they never run, and the sockets actually close when they are dropped. The model records each shutdown only as a request, in source order, and does not claim that it takes effect.
- Delivery is left out. The results of `write` and `flush` are ignored in the source, so partial writes are never retried. The model says which bytes are offered to a stream, not that they arrive. In the handshake, success or failure of the reply write is an input.
- Logging (`println!`) is left out.
- There are no timeouts, and a CONNECT request split across reads is not reassembled. The source has neither, so the model has neither.
- `Response.AsciiBytes`: the bytes of the reply are taken modulo 0x80 per character. This equals UTF-8 for the reply text, which is pure ASCII. It is not a general UTF-8 encoder.

# DNS message codec of a minimal UDP responder

This project models the codec of a small DNS responder. It covers two steps:

- decoding one 512-byte UDP query datagram into a header and a single question;
- writing the reply into a 512-byte send buffer.

The reply is the request's transaction id, the response flag, the echoed question and one fixed A record (142.250.200.3, TTL 0x26). The wire layout is that of RFC 1035: section 4.1.1 (header), section 4.1.2 (question), section 4.1.3 (resource record) and section 3.1 (length-prefixed labels).

Files:

- `dns.dfy`, module `Dns`: the types, the decoder and the encoder.
  - `Query` and `DnsRequest` are datatypes, because the source builds them once and never updates them.
  - `Error` has the three failure kinds.
  - `Parse` is a method over the 512-byte payload array, with the source's `loop` as a `while` loop. It is proved equal to the pure specification `ParseSpec`, whose label walk is the recursive `WalkName`. That recursion terminates on the measure `253 - ptr`.
  - `Response` writes the source's `fields` list into the buffer, in order, with `AppendToBuffer`. `AppendToBuffer` uses `CopyInto`, which models `copy_from_slice`. `Response` is proved to leave `ResponseBytes(req)` at the front of the buffer and every later byte unchanged.
  - `ResponseLayout` gives the offset of every field, the exact length, and the 285-byte bound.
- `dns_properties.dfy`, module `DnsProperties`: lemmas about the decoder. They cover:
  - the error cases;
  - what a successful decode holds;
  - the bytes decoding depends on;
  - the round trip from a reply back to the request it answers;
  - the worked `www.example.com` example.

  `ValidName` is an independent definition of an encoded name, written against RFC 1035 section 3.1. The decoder's label walk is proved to accept exactly the names it describes, up to 253 bytes.

Notes on the model:

- `u8` and `u16` are the subset types `Byte` and `U16` of `int`. The source reads a 16-bit value as `(hi as u16) << 8 | lo as u16`. The model writes this as `hi * 256 + lo`: the shift leaves the low byte clear, so the `|` adds `lo` without a carry. `ToBeBytes` is `u16::to_be_bytes`.
- The Rust fields `ty` and `class` are named `qtype` and `qclass`, because `class` is a Dafny keyword.
- The source caps the wire form of a name at 253 bytes, counting length bytes and the terminating zero (src/main.rs:84-87). RFC 1035 section 2.3.4 allows 255 octets on the wire. 253 is the limit for the dotted text form. So a name whose text is 252 or 253 characters is rejected. The model keeps the source's 253 cap.
- Every reply carries the same fixed answer record (src/main.rs:152-155), whatever the question.

## Model

| member | source | states |
|---|---|---|
| `Dns.ReadU16` | src/main.rs:58-59 | the 16-bit value read from two bytes has `hi` as its high byte and `lo` as its low byte |
| `Dns.ToBeBytes` | src/main.rs:136-138 | `to_be_bytes` gives two bytes that read back, big-endian, as the original value |
| `Dns.ParseSpec` | src/main.rs:56-123 | the functional model of `parse`: the question-count check, then the label walk, then the header fields, the stored name and type and class; its properties are the `DnsProperties` lemmas below |
| `Dns.WalkName` | src/main.rs:69-98 | the label walk, resumed at name offset `ptr`, either fails or ends at a length `n` with `ptr < n <= 253`; the byte at `12 + n - 1` is the terminating zero; it terminates on the measure `253 - ptr` |
| `Dns.Parse` | src/main.rs:56-123 | the imperative decoder, with its loop over `domain_name_pointer` and its copy into the 253-byte name array, returns exactly `ParseSpec(payload[..])`; every index stays inside the 512-byte payload |
| `Dns.CopyInto` | src/main.rs:91-96 | `copy_from_slice` puts `src` at `dst[at .. at + |src|]` and leaves every other byte of `dst` unchanged |
| `Dns.AppendToBuffer` | src/main.rs:165-169 | writes `bytes` at `buf[ptr .. ptr + len]`, returns `ptr + len`, and leaves the bytes before and after unchanged |
| `Dns.Fields` | src/main.rs:132-156 | the ten byte strings of the `fields` array, in write order; `ResponseLayout` states where each lands |
| `Dns.Response` | src/main.rs:126-163 | always `Ok`, returning exactly `12 + domain_name_len + 4 + 16` bytes; the buffer starts with `ResponseBytes(req)`, the concatenation of the fields in order, and is unchanged after it |
| `Dns.ResponseLayout` | src/main.rs:132-156 | the reply has length `32 + domain_name_len`, at most 285; in order it is: the transaction id, flags `80 00` (`DNS_FLAG_RESPONSE`), the request's question count, `00 01`, `00 00`, `00 00`, the stored name bytes, type, class, and the fixed 16-byte answer, which ends `8E FA C8 03` |
| `DnsProperties.WalkSound` | src/main.rs:72-98 | when the walk succeeds, the bytes it spanned form exactly one valid encoded name |
| `DnsProperties.WalkValidName` | src/main.rs:72-98 | walking a valid encoded name that ends at name offset `k` gives `Ok(k)` when `k <= 253` and `DnsNameTooLong` otherwise |
| `DnsProperties.WalkLabels` | src/main.rs:72-88 | stepping over whole labels of at most 63 octets does not change the walk's outcome |
| `DnsProperties.QuestionCountRejected` | src/main.rs:59-63 | decoding yields `OnlyOneQuestionSupported` exactly when the big-endian count in bytes 4-5 exceeds 1; this depends on no name byte |
| `DnsProperties.ParseHeader` | src/main.rs:57-67 | on success the transaction id is bytes 0-1 verbatim; flags and the four counts are `payload[2k] * 256 + payload[2k+1]`; the question count is at most 1 |
| `DnsProperties.ParseQuestion` | src/main.rs:89-122 | on success `1 <= domain_name_len <= 253`; the stored name's first `domain_name_len` bytes equal `payload[12 .. 12 + len]`, and the last of them is 0; type and class are read big-endian at `12 + len` to `12 + len + 3`; the request is well formed |
| `DnsProperties.ParseNameIff` | src/main.rs:69-100 | with at most one question, decoding succeeds with name length `n` if and only if `n <= 253` and bytes `12 .. 12 + n` are a valid encoded name |
| `DnsProperties.ParseNameOverCap` | src/main.rs:82-87 | a valid encoded name longer than 253 bytes (254, say) yields `DnsNameTooLong` |
| `DnsProperties.ParseLabelTooLong` | src/main.rs:73-80 | after whole labels spanning at most 253 bytes, a length byte above 63 yields `DnsLabelTooLong` |
| `DnsProperties.ParseNameTooLong` | src/main.rs:82-87 | after whole labels spanning `k <= 253` bytes, a length byte of at most 63 whose label would carry the name past 253 bytes yields `DnsNameTooLong` |
| `DnsProperties.ParseReadsPrefix` | src/main.rs:69-107 | two payloads that agree on bytes 0-268 decode identically, so no index at or beyond 12 + 253 + 4 is read |
| `DnsProperties.ResponseRoundTrip` | src/main.rs:132-156 | decoding any 512-byte buffer that starts with the reply to a well-formed request gives back that request, with flags 0x8000, answer count 1, and authority and additional counts 0 |
| `DnsProperties.ParseRespondParse` | src/main.rs:56-163 | decode, reply, decode again: the transaction id, question count and query all survive, under flags 0x8000 and answer count 1 |
| `DnsProperties.ExampleQueryParses` | src/main.rs:56-122 | the query `13 37 01 00 00 01 … 03 77 77 77 07 65 78 61 6D 70 6C 65 03 63 6F 6D 00 00 01 00 01` decodes with transaction id `13 37`, flags 0x0100, one question, `domain_name_len = 17`, type 1 and class 1 |

## Left out

- `main` (src/main.rs:12-29) is left out. It binds the UDP socket, loops over `recv_from` and `send_to`, and unwraps results. This is I/O. The model takes the received 512-byte buffer as a parameter and returns the filled send buffer with its length.
- The `Debug` derives and the `println!` of the decoded request are left out. They are formatting, not behaviour.
- Rust's panics on a slice out of range are not modelled. `AppendToBuffer` and `CopyInto` take as a precondition the bound that the slice needs. `Response` takes `domain_name_len <= 253` as a precondition, which `domain_name[..domain_name_len]` needs. The proofs show that `Response` and `Parse` meet these bounds on every input.
- The forwarding variant (upstream query, answer-section parsing, merging the upstream answer) is not in `src/main.rs`, so it is not modelled. Name compression is not part of this codec either: the fixed answer's `C0 0C` pointer is treated as two opaque bytes.

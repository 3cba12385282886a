/*
 * The DNS message codec of a minimal UDP responder: decoding a 512-byte
 * query datagram into a header and a single question, and writing a reply
 * (the echoed question plus one fixed A record) into a 512-byte buffer.
 * Wire layout as in RFC 1035: section 4.1.1 (header), section 4.1.2
 * (question), section 4.1.3 (resource record), section 3.1 (labels).
 */
module Dns {

  /** An unsigned octet, `u8`. */
  type Byte = b: int | 0 <= b < 0x100

  /** An unsigned 16-bit integer, `u16`. */
  type U16 = n: int | 0 <= n < 0x1_0000

  /** Size of every datagram buffer, inbound and outbound. */
  const PayloadSize: nat := 512

  /** Offset of the question's name, right after the 12-byte header. */
  const DomainNameStart: nat := 12

  /** Capacity of the name storage, and the largest name accepted. */
  const MaxNameLen: nat := 253

  /** Largest label length (RFC 1035, section 2.3.4). */
  const MaxLabelLen: nat := 63

  /** The QR bit, bit 15 of the flags word: `1 << 15`. */
  const DnsFlagResponse: U16 := 0x8000

  /** The answer record every reply carries: a compression pointer to offset
      12 (`C0 0C`), type A, class IN, TTL 0x26, rdata length 4 and the IPv4
      address 142.250.200.3. */
  const FixedAnswer: seq<Byte> :=
    [0xc0, 0x0c, 0x00, 0x01, 0x00, 0x01, 0x00, 0x00,
     0x00, 0x26, 0x00, 0x04, 0x8e, 0xfa, 0xc8, 0x03]

  /** The three ways decoding a query can fail. */
  datatype Error = DnsLabelTooLong | DnsNameTooLong | OnlyOneQuestionSupported

  datatype Result<T> = Ok(value: T) | Err(error: Error)

  /** `[u8; 2]` */
  type TransactionId = s: seq<Byte> | |s| == 2 witness [0, 0]

  /** `[u8; 253]`: fixed storage, of which the first `domainNameLen` bytes
      are meaningful. */
  type NameStorage = s: seq<Byte> | |s| == 253 witness seq(253, _ => 0)

  /** The question section of a request. */
  datatype Query = Query(domainName: NameStorage, domainNameLen: nat, qtype: U16, qclass: U16)

  /** A decoded request: the header fields and its single question. */
  datatype DnsRequest = DnsRequest(
    transactionId: TransactionId,
    flags: U16,
    questions: U16,
    answerRecords: U16,
    authorityRecords: U16,
    additionalRecords: U16,
    query: Query)

  /** `(hi as u16) << 8 | lo as u16`. The shift leaves the low eight bits
      clear, so the `|` adds `lo` without carry. */
  function ReadU16(hi: Byte, lo: Byte): (r: U16)
    ensures r / 0x100 == hi && r % 0x100 == lo
  {
    hi * 0x100 + lo
  }

  /** `u16::to_be_bytes`: most significant byte first. */
  function ToBeBytes(v: U16): (r: seq<Byte>)
    ensures |r| == 2 && ReadU16(r[0], r[1]) == v
  {
    [v / 0x100, v % 0x100]
  }

  function Zeros(n: nat): seq<Byte>
  {
    seq(n, _ => 0)
  }

  /* ---------------------------------------------------------------------
   * Decoding
   * ------------------------------------------------------------------- */

  /** The label walk of `parse`, resumed at name offset `ptr`: the
      specification of its loop. Returns the name length, counting the
      length bytes and the terminating zero byte. */
  function WalkName(p: seq<Byte>, ptr: nat): (r: Result<nat>)
    requires |p| == PayloadSize && ptr <= MaxNameLen
    ensures r.Ok? ==> ptr < r.value <= MaxNameLen
    ensures r.Ok? ==> p[DomainNameStart + r.value - 1] == 0
    decreases MaxNameLen - ptr
  {
    var labelLen := p[DomainNameStart + ptr];
    if labelLen > MaxLabelLen then Err(DnsLabelTooLong)
    else if ptr + labelLen + 1 > MaxNameLen then Err(DnsNameTooLong)
    else if labelLen == 0 then Ok(ptr + 1)
    else WalkName(p, ptr + labelLen + 1)
  }

  /** What `parse` returns for the payload `p`. */
  function ParseSpec(p: seq<Byte>): Result<DnsRequest>
    requires |p| == PayloadSize
  {
    var questions := ReadU16(p[4], p[5]);
    if questions > 1 then Err(OnlyOneQuestionSupported)
    else
      match WalkName(p, 0)
      case Err(e) => Err(e)
      case Ok(n) =>
        var end := DomainNameStart + n;
        Ok(DnsRequest(
             [p[0], p[1]],
             ReadU16(p[2], p[3]),
             questions,
             ReadU16(p[6], p[7]),
             ReadU16(p[8], p[9]),
             ReadU16(p[10], p[11]),
             Query(p[DomainNameStart..end] + Zeros(MaxNameLen - n), n,
                   ReadU16(p[end], p[end + 1]),
                   ReadU16(p[end + 2], p[end + 3]))))
  }

  /** `copy_from_slice` into `dst[at .. at + |src|]`. */
  method CopyInto(dst: array<Byte>, at: nat, src: seq<Byte>)
    requires at + |src| <= dst.Length
    modifies dst
    ensures dst[..] == old(dst[..at]) + src + old(dst[at + |src|..])
  {
    for i := 0 to |src|
      invariant dst[..at] == old(dst[..at])
      invariant dst[at..at + i] == src[..i]
      invariant dst[at + i..] == old(dst[at + i..])
    {
      dst[at + i] := src[i];
    }
    assert dst[..] == dst[..at] + dst[at..at + |src|] + dst[at + |src|..];
  }

  /** `DnsRequest::parse`: decodes the header, rejects more than one
      question, walks the labels of the name and reads type and class. */
  method Parse(payload: array<Byte>) returns (r: Result<DnsRequest>)
    requires payload.Length == PayloadSize
    ensures r == ParseSpec(payload[..])
  {
    ghost var p := payload[..];
    var transactionId: TransactionId := [payload[0], payload[1]];
    var flags := ReadU16(payload[2], payload[3]);
    var questions := ReadU16(payload[4], payload[5]);

    if questions > 1 {
      return Err(OnlyOneQuestionSupported);
    }

    var answerRecords := ReadU16(payload[6], payload[7]);
    var authorityRecords := ReadU16(payload[8], payload[9]);
    var additionalRecords := ReadU16(payload[10], payload[11]);

    var domainName := new Byte[MaxNameLen](_ => 0);
    var domainNamePointer: nat := 0;
    while true
      invariant domainNamePointer <= MaxNameLen
      invariant WalkName(p, domainNamePointer) == WalkName(p, 0)
      invariant domainName[..] == Zeros(MaxNameLen)
      decreases MaxNameLen - domainNamePointer
    {
      var labelLen := payload[DomainNameStart + domainNamePointer];

      if labelLen > MaxLabelLen {
        return Err(DnsLabelTooLong);
      }

      domainNamePointer := domainNamePointer + labelLen + 1;

      if domainNamePointer > MaxNameLen {
        return Err(DnsNameTooLong);
      }

      if labelLen == 0 {
        CopyInto(domainName, 0, payload[DomainNameStart..DomainNameStart + domainNamePointer]);
        break;
      }
    }
    var domainNameEnd := DomainNameStart + domainNamePointer;

    var queryTy := ReadU16(payload[domainNameEnd], payload[domainNameEnd + 1]);
    var queryClass := ReadU16(payload[domainNameEnd + 2], payload[domainNameEnd + 3]);

    assert domainName[..] == p[DomainNameStart..domainNameEnd] + Zeros(MaxNameLen - domainNamePointer);
    r := Ok(DnsRequest(
              transactionId, flags, questions,
              answerRecords, authorityRecords, additionalRecords,
              Query(domainName[..], domainNamePointer, queryTy, queryClass)));
  }

  /* ---------------------------------------------------------------------
   * Encoding
   * ------------------------------------------------------------------- */

  /** The storage bound that `domain_name[..domain_name_len]` needs. */
  predicate NameFits(q: Query)
  {
    q.domainNameLen <= MaxNameLen
  }

  /** The `fields` array of `response`, in write order. */
  function Fields(req: DnsRequest): (fs: seq<seq<Byte>>)
    requires NameFits(req.query)
  {
    [ req.transactionId,
      ToBeBytes(DnsFlagResponse),
      ToBeBytes(req.questions),
      [0, 1],
      [0, 0],
      [0, 0],
      req.query.domainName[..req.query.domainNameLen],
      ToBeBytes(req.query.qtype),
      ToBeBytes(req.query.qclass),
      FixedAnswer ]
  }

  /** The concatenation of a sequence of byte strings, in order. */
  function Flatten(fs: seq<seq<Byte>>): seq<Byte>
  {
    if fs == [] then [] else Flatten(fs[..|fs| - 1]) + fs[|fs| - 1]
  }

  /** The bytes `response` writes at the start of its buffer. */
  function ResponseBytes(req: DnsRequest): seq<Byte>
    requires NameFits(req.query)
  {
    Flatten(Fields(req))
  }

  lemma FlattenStep(fs: seq<seq<Byte>>, i: nat)
    requires i < |fs|
    ensures Flatten(fs[..i + 1]) == Flatten(fs[..i]) + fs[i]
  {
    assert fs[..i + 1][..i] == fs[..i];
  }

  /** Each prefix of the fields is flattened into a prefix of the whole. */
  lemma {:induction false} FlattenPrefix(fs: seq<seq<Byte>>, i: nat)
    requires i <= |fs|
    ensures |Flatten(fs[..i])| <= |Flatten(fs)|
    ensures Flatten(fs)[..|Flatten(fs[..i])|] == Flatten(fs[..i])
    decreases |fs| - i
  {
    if i < |fs| {
      FlattenPrefix(fs, i + 1);
      FlattenStep(fs, i);
      var a, b := Flatten(fs[..i]), Flatten(fs[..i + 1]);
      assert b[..|a|] == a;
      assert Flatten(fs)[..|a|] == Flatten(fs)[..|b|][..|a|];
    } else {
      assert fs[..i] == fs;
    }
  }

  /** Field `k` lands right after the fields before it. */
  lemma FieldAt(fs: seq<seq<Byte>>, k: nat)
    requires k < |fs|
    ensures |Flatten(fs[..k])| + |fs[k]| <= |Flatten(fs)|
    ensures Flatten(fs)[|Flatten(fs[..k])|..|Flatten(fs[..k])| + |fs[k]|] == fs[k]
  {
    FlattenPrefix(fs, k + 1);
    FlattenStep(fs, k);
    var o := |Flatten(fs[..k])|;
    assert Flatten(fs)[o..o + |fs[k]|] == Flatten(fs[..k + 1])[o..o + |fs[k]|];
  }

  /** The reply layout: header with the response flag, one answer and no
      authority or additional records; the echoed question; the fixed
      answer. Its length is exact and at most 285. */
  lemma ResponseLayout(req: DnsRequest)
    requires NameFits(req.query)
    ensures var r, n := ResponseBytes(req), req.query.domainNameLen;
      |r| == DomainNameStart + n + 4 + |FixedAnswer| <= 285 &&
      r[0..2] == req.transactionId &&
      r[2..4] == [0x80, 0x00] &&
      r[4..6] == ToBeBytes(req.questions) &&
      r[6..8] == [0x00, 0x01] &&
      r[8..10] == [0x00, 0x00] &&
      r[10..12] == [0x00, 0x00] &&
      r[12..12 + n] == req.query.domainName[..n] &&
      r[12 + n..14 + n] == ToBeBytes(req.query.qtype) &&
      r[14 + n..16 + n] == ToBeBytes(req.query.qclass) &&
      r[16 + n..] == FixedAnswer &&
      r[|r| - 4..] == [0x8e, 0xfa, 0xc8, 0x03]
  {
    var fs := Fields(req);
    var n := req.query.domainNameLen;
    assert fs[..0] == [];
    FlattenStep(fs, 0); FieldAt(fs, 0);
    FlattenStep(fs, 1); FieldAt(fs, 1);
    FlattenStep(fs, 2); FieldAt(fs, 2);
    FlattenStep(fs, 3); FieldAt(fs, 3);
    FlattenStep(fs, 4); FieldAt(fs, 4);
    FlattenStep(fs, 5); FieldAt(fs, 5);
    FlattenStep(fs, 6); FieldAt(fs, 6);
    FlattenStep(fs, 7); FieldAt(fs, 7);
    FlattenStep(fs, 8); FieldAt(fs, 8);
    FlattenStep(fs, 9); FieldAt(fs, 9);
    assert fs[..10] == fs;
  }

  /** `DnsRequest::append_to_buffer`: copies `bytes` to the cursor and
      advances it. Returns the new cursor. */
  method AppendToBuffer(buf: array<Byte>, bufPtr: nat, bytes: seq<Byte>) returns (newPtr: nat)
    requires buf.Length == PayloadSize
    requires bufPtr + |bytes| <= buf.Length
    modifies buf
    ensures newPtr == bufPtr + |bytes|
    ensures buf[..bufPtr] == old(buf[..bufPtr])
    ensures buf[bufPtr..newPtr] == bytes
    ensures forall j | newPtr <= j < buf.Length :: buf[j] == old(buf[j])
  {
    CopyInto(buf, bufPtr, bytes);
    newPtr := bufPtr + |bytes|;
  }

  /** One append extends the written prefix by the appended bytes. */
  lemma AppendExtends(buf: seq<Byte>, done: seq<Byte>, bytes: seq<Byte>)
    requires |done| + |bytes| <= |buf|
    requires buf[..|done|] == done
    requires buf[|done|..|done| + |bytes|] == bytes
    ensures buf[..|done| + |bytes|] == done + bytes
  {
    forall j | 0 <= j < |done| + |bytes| ensures buf[..|done| + |bytes|][j] == (done + bytes)[j] {
      if j < |done| {
        assert buf[j] == buf[..|done|][j];
      } else {
        assert buf[j] == buf[|done|..|done| + |bytes|][j - |done|];
      }
    }
  }

  /** `DnsRequest::response`: writes the reply into `buf` and returns the
      number of bytes written; the rest of `buf` is left as it was. */
  method Response(req: DnsRequest, buf: array<Byte>) returns (r: Result<nat>)
    requires buf.Length == PayloadSize
    requires NameFits(req.query)
    modifies buf
    ensures r.Ok?
    ensures r.value == DomainNameStart + req.query.domainNameLen + 4 + |FixedAnswer|
    ensures buf[..r.value] == ResponseBytes(req)
    ensures buf[r.value..] == old(buf[r.value..])
  {
    var bufPtr: nat := 0;
    var fields := Fields(req);
    ResponseLayout(req);
    for i := 0 to |fields|
      invariant bufPtr == |Flatten(fields[..i])| <= |Flatten(fields)|
      invariant buf[..bufPtr] == Flatten(fields[..i])
      invariant forall j | bufPtr <= j < buf.Length :: buf[j] == old(buf[j])
    {
      FlattenStep(fields, i);
      FlattenPrefix(fields, i + 1);
      ghost var done := Flatten(fields[..i]);
      bufPtr := AppendToBuffer(buf, bufPtr, fields[i]);
      AppendExtends(buf[..], done, fields[i]);
      assert buf[..bufPtr] == buf[..][..bufPtr];
    }
    assert fields[..|fields|] == fields;
    r := Ok(bufPtr);
    assert buf[r.value..] == old(buf[r.value..]) by {
      forall j | 0 <= j < buf.Length - r.value ensures buf[r.value..][j] == old(buf[r.value..])[j] {
        assert buf[r.value + j] == old(buf[r.value + j]);
      }
    }
  }
}

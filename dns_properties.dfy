/*
 * What decoding and encoding promise: the error cases of the header and the
 * label walk, what a successful decode holds, the bytes it depends on, and
 * the round trip from a reply back to the request it answers.
 */
module DnsProperties {
  import opened Dns

  /** An encoded name (RFC 1035, section 3.1): labels of at most 63 octets,
      each preceded by its length, ended by the zero-length label and
      nothing after it. The overall cap is separate. */
  predicate ValidName(s: seq<Byte>)
    decreases |s|
  {
    |s| >= 1 && s[0] <= MaxLabelLen &&
    if s[0] == 0 then |s| == 1
    else s[0] + 1 < |s| && ValidName(s[s[0] + 1..])
  }

  /** Whole non-empty labels of at most 63 octets, no terminator. */
  predicate LabelPrefix(s: seq<Byte>)
    decreases |s|
  {
    s == [] ||
    (0 < s[0] <= MaxLabelLen && s[0] + 1 <= |s| && LabelPrefix(s[s[0] + 1..]))
  }

  /** What every successful decode holds: at most one question, and a name
      of 1 to 253 bytes stored at the front of zeroed storage. */
  predicate WellFormed(req: DnsRequest)
  {
    var n := req.query.domainNameLen;
    req.questions <= 1 &&
    1 <= n <= MaxNameLen &&
    ValidName(req.query.domainName[..n]) &&
    req.query.domainName[n..] == Zeros(MaxNameLen - n)
  }

  /** The header `response` writes over a request's own: response flag, one
      answer, no authority or additional records. */
  function AsAnswered(req: DnsRequest): DnsRequest
  {
    req.(flags := DnsFlagResponse, answerRecords := 1,
         authorityRecords := 0, additionalRecords := 0)
  }

  /* ---------------------------------------------------------------------
   * The label walk
   * ------------------------------------------------------------------- */

  /** A walk that succeeds has spanned exactly one valid encoded name. */
  lemma {:induction false} WalkSound(p: seq<Byte>, ptr: nat)
    requires |p| == PayloadSize && ptr <= MaxNameLen
    ensures var r := WalkName(p, ptr);
      r.Ok? ==> ValidName(p[DomainNameStart + ptr..DomainNameStart + r.value])
    decreases MaxNameLen - ptr
  {
    var labelLen := p[DomainNameStart + ptr];
    var r := WalkName(p, ptr);
    if r.Ok? {
      var s := p[DomainNameStart + ptr..DomainNameStart + r.value];
      assert s[0] == labelLen;
      if labelLen != 0 {
        var next := ptr + labelLen + 1;
        assert r == WalkName(p, next);
        WalkSound(p, next);
        assert s[labelLen + 1..] == p[DomainNameStart + next..DomainNameStart + r.value];
      }
    }
  }

  /** Walking a valid encoded name that starts at `ptr` and ends before
      name offset `k` yields `k`, or `DnsNameTooLong` past 253 bytes. */
  lemma {:induction false} WalkValidName(p: seq<Byte>, ptr: nat, k: nat)
    requires |p| == PayloadSize && ptr <= MaxNameLen
    requires ptr < k && DomainNameStart + k <= PayloadSize
    requires ValidName(p[DomainNameStart + ptr..DomainNameStart + k])
    ensures WalkName(p, ptr) == if k <= MaxNameLen then Ok(k) else Err(DnsNameTooLong)
    decreases k - ptr
  {
    var s := p[DomainNameStart + ptr..DomainNameStart + k];
    var labelLen := p[DomainNameStart + ptr];
    assert s[0] == labelLen;
    var next := ptr + labelLen + 1;
    if labelLen != 0 && next <= MaxNameLen {
      assert s[labelLen + 1..] == p[DomainNameStart + next..DomainNameStart + k];
      WalkValidName(p, next, k);
    }
  }

  /** Whole labels are stepped over without changing the outcome. */
  lemma {:induction false} WalkLabels(p: seq<Byte>, ptr: nat, k: nat)
    requires |p| == PayloadSize && ptr <= k <= MaxNameLen
    requires LabelPrefix(p[DomainNameStart + ptr..DomainNameStart + k])
    ensures WalkName(p, ptr) == WalkName(p, k)
    decreases k - ptr
  {
    if ptr < k {
      var s := p[DomainNameStart + ptr..DomainNameStart + k];
      var labelLen := p[DomainNameStart + ptr];
      assert s[0] == labelLen;
      var next := ptr + labelLen + 1;
      assert s[labelLen + 1..] == p[DomainNameStart + next..DomainNameStart + k];
      WalkLabels(p, next, k);
    }
  }

  /** The walk never reports the question-count error. */
  lemma {:induction false} WalkNoQuestionError(p: seq<Byte>, ptr: nat)
    requires |p| == PayloadSize && ptr <= MaxNameLen
    ensures WalkName(p, ptr) != Err(OnlyOneQuestionSupported)
    decreases MaxNameLen - ptr
  {
    var labelLen := p[DomainNameStart + ptr];
    if labelLen <= MaxLabelLen && ptr + labelLen + 1 <= MaxNameLen && labelLen != 0 {
      WalkNoQuestionError(p, ptr + labelLen + 1);
    }
  }

  /** The walk reads no byte at index 269 or beyond. */
  lemma {:induction false} WalkReadsPrefix(p: seq<Byte>, q: seq<Byte>, ptr: nat)
    requires |p| == |q| == PayloadSize && ptr <= MaxNameLen
    requires p[..269] == q[..269]
    ensures WalkName(p, ptr) == WalkName(q, ptr)
    decreases MaxNameLen - ptr
  {
    assert p[DomainNameStart + ptr] == p[..269][DomainNameStart + ptr];
    assert q[DomainNameStart + ptr] == q[..269][DomainNameStart + ptr];
    var labelLen := p[DomainNameStart + ptr];
    if labelLen <= MaxLabelLen && ptr + labelLen + 1 <= MaxNameLen && labelLen != 0 {
      WalkReadsPrefix(p, q, ptr + labelLen + 1);
    }
  }

  /* ---------------------------------------------------------------------
   * Decoding
   * ------------------------------------------------------------------- */

  /** A question count above one is rejected, and it is the only cause of
      `OnlyOneQuestionSupported`; it depends on bytes 4 and 5 alone. */
  lemma QuestionCountRejected(p: seq<Byte>)
    requires |p| == PayloadSize
    ensures ParseSpec(p) == Err(OnlyOneQuestionSupported) <==> p[4] as int * 0x100 + p[5] > 1
  {
    WalkNoQuestionError(p, 0);
  }

  /** Header fields are copied (transaction id) or read big-endian. */
  lemma ParseHeader(p: seq<Byte>)
    requires |p| == PayloadSize && ParseSpec(p).Ok?
    ensures var req := ParseSpec(p).value;
      req.transactionId == p[0..2] &&
      req.flags == p[2] as int * 0x100 + p[3] &&
      req.questions == p[4] as int * 0x100 + p[5] <= 1 &&
      req.answerRecords == p[6] as int * 0x100 + p[7] &&
      req.authorityRecords == p[8] as int * 0x100 + p[9] &&
      req.additionalRecords == p[10] as int * 0x100 + p[11]
  {
  }

  /** A successful decode stores the name's raw bytes, ending in the zero
      label, and reads type and class big-endian right after it. */
  lemma ParseQuestion(p: seq<Byte>)
    requires |p| == PayloadSize && ParseSpec(p).Ok?
    ensures var req := ParseSpec(p).value;
      var n := req.query.domainNameLen;
      1 <= n <= MaxNameLen &&
      req.query.domainName[..n] == p[DomainNameStart..DomainNameStart + n] &&
      req.query.domainName[n - 1] == 0 &&
      req.query.qtype == p[12 + n] as int * 0x100 + p[13 + n] &&
      req.query.qclass == p[14 + n] as int * 0x100 + p[15 + n] &&
      WellFormed(req)
  {
    WalkSound(p, 0);
    var req := ParseSpec(p).value;
    var n := req.query.domainNameLen;
    assert req.query.domainName[..n] == p[DomainNameStart..DomainNameStart + n];
  }

  /** With at most one question, decoding succeeds with name length `n`
      exactly when bytes 12 .. 12+n are a valid encoded name of at most
      253 bytes. */
  lemma ParseNameIff(p: seq<Byte>, n: nat)
    requires |p| == PayloadSize && p[4] as int * 0x100 + p[5] <= 1
    ensures (ParseSpec(p).Ok? && ParseSpec(p).value.query.domainNameLen == n) <==>
            (n <= MaxNameLen && ValidName(p[DomainNameStart..DomainNameStart + n]))
  {
    WalkSound(p, 0);
    if n <= MaxNameLen && ValidName(p[DomainNameStart..DomainNameStart + n]) {
      WalkValidName(p, 0, n);
    }
  }

  /** A valid encoded name longer than 253 bytes is `DnsNameTooLong`. */
  lemma ParseNameOverCap(p: seq<Byte>, n: nat)
    requires |p| == PayloadSize && p[4] as int * 0x100 + p[5] <= 1
    requires MaxNameLen < n && DomainNameStart + n <= PayloadSize
    requires ValidName(p[DomainNameStart..DomainNameStart + n])
    ensures ParseSpec(p) == Err(DnsNameTooLong)
  {
    WalkValidName(p, 0, n);
  }

  /** After whole labels spanning `k <= 253` bytes, a length byte above 63
      is `DnsLabelTooLong`. */
  lemma ParseLabelTooLong(p: seq<Byte>, k: nat)
    requires |p| == PayloadSize && p[4] as int * 0x100 + p[5] <= 1
    requires k <= MaxNameLen && LabelPrefix(p[DomainNameStart..DomainNameStart + k])
    requires p[DomainNameStart + k] > MaxLabelLen
    ensures ParseSpec(p) == Err(DnsLabelTooLong)
  {
    WalkLabels(p, 0, k);
  }

  /** After whole labels spanning `k <= 253` bytes, an acceptable length
      byte whose label would carry the name past 253 bytes is
      `DnsNameTooLong`. */
  lemma ParseNameTooLong(p: seq<Byte>, k: nat)
    requires |p| == PayloadSize && p[4] as int * 0x100 + p[5] <= 1
    requires k <= MaxNameLen && LabelPrefix(p[DomainNameStart..DomainNameStart + k])
    requires p[DomainNameStart + k] <= MaxLabelLen
    requires k + p[DomainNameStart + k] + 1 > MaxNameLen
    ensures ParseSpec(p) == Err(DnsNameTooLong)
  {
    WalkLabels(p, 0, k);
  }

  /** Decoding reads no byte at index 269 or beyond: every index stays
      below 12 + 253 + 4. */
  lemma ParseReadsPrefix(p: seq<Byte>, q: seq<Byte>)
    requires |p| == |q| == PayloadSize && p[..269] == q[..269]
    ensures ParseSpec(p) == ParseSpec(q)
  {
    WalkReadsPrefix(p, q, 0);
    forall i | 0 <= i < 269 ensures p[i] == q[i] {
      assert p[i] == p[..269][i];
      assert q[i] == q[..269][i];
    }
    if WalkName(p, 0).Ok? {
      var n := WalkName(p, 0).value;
      assert p[DomainNameStart..DomainNameStart + n] == q[DomainNameStart..DomainNameStart + n];
    }
  }

  /* ---------------------------------------------------------------------
   * Round trip
   * ------------------------------------------------------------------- */

  /** A slice of the written prefix reads back as written. */
  lemma ReadBack(buf: seq<Byte>, r: seq<Byte>, i: nat, j: nat)
    requires |r| <= |buf| && buf[..|r|] == r && i <= j <= |r|
    ensures buf[i..j] == r[i..j]
  {
    forall k | 0 <= k < j - i ensures buf[i..j][k] == r[i..j][k] {
      assert buf[i + k] == buf[..|r|][i + k];
    }
  }

  /** A 16-bit field written with `to_be_bytes` reads back big-endian. */
  lemma ReadBackU16(buf: seq<Byte>, at: nat, v: U16)
    requires at + 2 <= |buf| && buf[at..at + 2] == ToBeBytes(v)
    ensures ReadU16(buf[at], buf[at + 1]) == v
  {
    assert buf[at] == buf[at..at + 2][0] && buf[at + 1] == buf[at..at + 2][1];
  }

  /** Decoding a buffer that starts with the reply to a well-formed request
      gives back that request under the reply's header. */
  lemma ResponseRoundTrip(req: DnsRequest, buf: seq<Byte>)
    requires WellFormed(req) && |buf| == PayloadSize
    requires |ResponseBytes(req)| <= |buf| && buf[..|ResponseBytes(req)|] == ResponseBytes(req)
    ensures ParseSpec(buf) == Ok(AsAnswered(req))
  {
    ResponseLayout(req);
    var r := ResponseBytes(req);
    var n := req.query.domainNameLen;
    var name := req.query.domainName;
    ReadBack(buf, r, 0, 2);
    ReadBack(buf, r, 2, 4);
    ReadBack(buf, r, 4, 6);
    ReadBack(buf, r, 6, 8);
    ReadBack(buf, r, 8, 10);
    ReadBack(buf, r, 10, 12);
    ReadBack(buf, r, 12, 12 + n);
    ReadBack(buf, r, 12 + n, 14 + n);
    ReadBack(buf, r, 14 + n, 16 + n);
    assert [buf[0], buf[1]] == buf[0..2];
    ReadBackU16(buf, 2, DnsFlagResponse);
    ReadBackU16(buf, 4, req.questions);
    ReadBackU16(buf, 6, 1);
    ReadBackU16(buf, 8, 0);
    ReadBackU16(buf, 10, 0);
    ReadBackU16(buf, 12 + n, req.query.qtype);
    ReadBackU16(buf, 14 + n, req.query.qclass);
    WalkValidName(buf, 0, n);
    assert name == name[..n] + name[n..];
  }

  /** Decode, reply, decode again: the transaction id, question count and
      question survive, with flags 0x8000 and one answer. */
  lemma ParseRespondParse(p: seq<Byte>, buf: seq<Byte>)
    requires |p| == PayloadSize && ParseSpec(p).Ok?
    requires |buf| == PayloadSize
    requires var r := ResponseBytes(ParseSpec(p).value);
      |r| <= |buf| && buf[..|r|] == r
    ensures ParseSpec(buf).Ok?
    ensures var req, back := ParseSpec(p).value, ParseSpec(buf).value;
      back.transactionId == req.transactionId &&
      back.questions == req.questions &&
      back.query == req.query &&
      back.flags == 0x8000 && back.answerRecords == 1 &&
      back.authorityRecords == 0 && back.additionalRecords == 0
  {
    ParseQuestion(p);
    ResponseRoundTrip(ParseSpec(p).value, buf);
  }
  /* ---------------------------------------------------------------------
   * A worked example
   * ------------------------------------------------------------------- */

  /** Transaction 0x1337, recursion desired, one question for
      `www.example.com`, type A, class IN. */
  const ExampleHead: seq<Byte> :=
    [0x13, 0x37, 0x01, 0x00, 0x00, 0x01, 0x00, 0x00, 0x00, 0x00, 0x00, 0x00,
     0x03, 0x77, 0x77, 0x77,
     0x07, 0x65, 0x78, 0x61, 0x6d, 0x70, 0x6c, 0x65,
     0x03, 0x63, 0x6f, 0x6d,
     0x00,
     0x00, 0x01, 0x00, 0x01]

  /** The example decodes, in a zero-filled receive buffer, to a 17-byte
      name of type A and class IN. */
  lemma ExampleQueryParses()
    ensures var r := ParseSpec(ExampleHead + Zeros(PayloadSize - |ExampleHead|));
      r.Ok? &&
      r.value.transactionId == [0x13, 0x37] &&
      r.value.flags == 0x0100 && r.value.questions == 1 &&
      r.value.query.domainNameLen == 17 &&
      r.value.query.qtype == 1 && r.value.query.qclass == 1
  {
    var p := ExampleHead + Zeros(PayloadSize - |ExampleHead|);
    // the walk visits the length bytes 3, 7, 3 and 0 at name offsets 0, 4, 12, 16
    assert p[DomainNameStart + 16] == 0x00;
    assert WalkName(p, 16) == Ok(17);
    assert p[DomainNameStart + 12] == 0x03;
    assert WalkName(p, 12) == Ok(17);
    assert p[DomainNameStart + 4] == 0x07;
    assert WalkName(p, 4) == Ok(17);
    assert p[DomainNameStart] == 0x03;
    assert WalkName(p, 0) == Ok(17);
  }
}

/** Firmware image handling (boot/src/firmware.c): the packed image header, the
    header fetch with retries, the chunked CRC check of the payload, the choice
    between the two application slots and the fallback to the recovery image
    (PRF). Flash reads are answered by an oracle and a jump is a terminal result. */
module Firmware {
  import opened Bytes
  import opened Crc32
  import opened Errno
  import opened BootBit

  const PBLBOOT_MAGIC: bv32 := 0x96F3_B83D
  /** `sizeof(struct firmware_header)`: 4 + 4 + 8 + 4 + 4 + 4 packed bytes. */
  const HEADER_SIZE: nat := 28
  const HEADER_LENGTH: bv32 := 28
  const HEADER_TRIES: nat := 5
  /** Addresses are `uint32_t` and wrap modulo this. */
  const ADDR_SPACE: nat := 0x1_0000_0000

  // ---------------------------------------------------------------- header

  datatype Header = Header(magic: bv32, headerLength: bv32, timestamp: bv64,
                           startOffset: bv32, length: bv32, crc: bv32)

  /** The header as stored at the start of a slot: the fields in declaration
      order, each little-endian, with no padding. */
  function Serialize(h: Header): (b: seq<bv8>)
    ensures |b| == HEADER_SIZE
  {
    Le32(h.magic) + (Le32(h.headerLength) + (Le64(h.timestamp)
      + (Le32(h.startOffset) + (Le32(h.length) + Le32(h.crc)))))
  }

  /** The header a 28-byte image holds (the packed struct read from flash). */
  function Parse(b: seq<bv8>): Header
    requires |b| == HEADER_SIZE
  {
    Header(Bytes.Word(b[0], b[1], b[2], b[3]), Bytes.Word(b[4], b[5], b[6], b[7]),
           Join(Bytes.Word(b[8], b[9], b[10], b[11]), Bytes.Word(b[12], b[13], b[14], b[15])),
           Bytes.Word(b[16], b[17], b[18], b[19]), Bytes.Word(b[20], b[21], b[22], b[23]),
           Bytes.Word(b[24], b[25], b[26], b[27]))
  }

  /** Where each field lies in a serialized header. */
  lemma SerializeSlices(h: Header)
    ensures var s := Serialize(h);
            && s[0..4] == Le32(h.magic) && s[4..8] == Le32(h.headerLength)
            && s[8..12] == Le32(Lo(h.timestamp)) && s[12..16] == Le32(Hi(h.timestamp))
            && s[16..20] == Le32(h.startOffset) && s[20..24] == Le32(h.length) && s[24..28] == Le32(h.crc)
  {
    Slices(Le32(h.magic), Le32(h.headerLength), Le32(Lo(h.timestamp)), Le32(Hi(h.timestamp)),
           Le32(h.startOffset), Le32(h.length), Le32(h.crc));
  }

  lemma Slices(a: seq<bv8>, b: seq<bv8>, c: seq<bv8>, d: seq<bv8>, e: seq<bv8>, f: seq<bv8>, g: seq<bv8>)
    requires |a| == |b| == |c| == |d| == |e| == |f| == |g| == 4
    ensures var s := a + (b + ((c + d) + (e + (f + g))));
            && s[0..4] == a && s[4..8] == b && s[8..12] == c && s[12..16] == d
            && s[16..20] == e && s[20..24] == f && s[24..28] == g
  {
    var s := a + (b + ((c + d) + (e + (f + g))));
    assert s[4..] == b + ((c + d) + (e + (f + g)));
    assert s[8..] == (c + d) + (e + (f + g));
    assert s[16..] == e + (f + g);
    assert s[20..] == f + g;
  }

  /** Parsing undoes serializing... */
  lemma {:induction false} ParseSerialize(h: Header)
    ensures Parse(Serialize(h)) == h
  {
    var s := Serialize(h);
    SerializeSlices(h);
    WordAt(s, 0, h.magic);
    WordAt(s, 4, h.headerLength);
    WordAt(s, 8, Lo(h.timestamp));
    WordAt(s, 12, Hi(h.timestamp));
    WordAt(s, 16, h.startOffset);
    WordAt(s, 20, h.length);
    WordAt(s, 24, h.crc);
    JoinHalves(h.timestamp, 0, 0);
  }

  /** Each field of a parsed image is stored in the bytes it came from. */
  lemma {:induction false} ParseFields(b: seq<bv8>)
    requires |b| == HEADER_SIZE
    ensures var h := Parse(b);
            && Le32(h.magic) == b[0..4] && Le32(h.headerLength) == b[4..8]
            && Le64(h.timestamp) == b[8..12] + b[12..16]
            && Le32(h.startOffset) == b[16..20] && Le32(h.length) == b[20..24] && Le32(h.crc) == b[24..28]
  {
    Le32At(b, 0);
    Le32At(b, 4);
    Le32At(b, 8);
    Le32At(b, 12);
    Le32At(b, 16);
    Le32At(b, 20);
    Le32At(b, 24);
    JoinHalves(0, Bytes.Word(b[8], b[9], b[10], b[11]), Bytes.Word(b[12], b[13], b[14], b[15]));
  }

  /** A 28-byte sequence is the concatenation of its fields' slices. */
  lemma Pieces(b: seq<bv8>)
    requires |b| == HEADER_SIZE
    ensures b == b[0..4] + (b[4..8] + ((b[8..12] + b[12..16]) + (b[16..20] + (b[20..24] + b[24..28]))))
  {
  }

  /** ...and serializing undoes parsing: every 28-byte image is some header. */
  lemma {:induction false} SerializeParse(b: seq<bv8>)
    requires |b| == HEADER_SIZE
    ensures Serialize(Parse(b)) == b
  {
    ParseFields(b);
    Pieces(b);
  }

  /** The fetch loop's acceptance test (firmware.c:59-67). */
  predicate Accepted(h: Header)
  {
    h.magic == PBLBOOT_MAGIC && h.headerLength == HEADER_LENGTH
  }

  /** The same test read off the stored image: its first eight bytes are the
      little-endian encodings of PBLBOOT_MAGIC and of 28. */
  predicate AcceptedImage(b: seq<bv8>)
    requires |b| == HEADER_SIZE
  {
    && b[0] == 0x3D && b[1] == 0xB8 && b[2] == 0xF3 && b[3] == 0x96
    && b[4] == 28 && b[5] == 0 && b[6] == 0 && b[7] == 0
  }

  lemma AcceptedImageIff(b: seq<bv8>)
    requires |b| == HEADER_SIZE
    ensures AcceptedImage(b) <==> Accepted(Parse(b))
  {
    BytesOfWord(b[0], b[1], b[2], b[3]);
    BytesOfWord(b[4], b[5], b[6], b[7]);
  }

  // ---------------------------------------------------------------- flash

  /** A `flash_read(flash, addr, buf, len)` call. */
  datatype Request = Request(addr: nat, len: nat)

  /** Its outcome: the bytes read, or the driver's negative error code. */
  datatype Reply = Data(bytes: seq<bv8>) | Fault(err: NegInt)

  /** The flash as the bootloader sees it: the k-th read of the boot, counted
      from 0, answers request rq with flash(k, rq). Reads of the same bytes may
      return different data (that is why the header fetch retries). */
  type Flash = (nat, Request) -> Reply

  /** A reply that, when it succeeds, holds n bytes. */
  predicate Fits(rep: Reply, n: nat)
  {
    rep.Data? ==> |rep.bytes| == n
  }

  /** A successful read fills exactly the bytes asked for. The trigger makes a
      proof name the read it needs this for, by mentioning `Fits`. */
  ghost predicate WellFormed(flash: Flash)
  {
    forall k: nat, rq: Request {:trigger Fits(flash(k, rq), rq.len)} :: Fits(flash(k, rq), rq.len)
  }

  lemma ReadFits(flash: Flash, k: nat, rq: Request)
    requires WellFormed(flash)
    ensures flash(k, rq).Data? ==> |flash(k, rq).bytes| == rq.len
  {
    assert Fits(flash(k, rq), rq.len);
  }

  /** Flash whose content does not change during the boot: every read returns
      the bytes at the requested addresses, wrapping at 2^32. */
  ghost predicate Static(flash: Flash, content: nat -> bv8)
  {
    forall k: nat, rq: Request :: flash(k, rq) == Data(Span(content, rq.addr, rq.len))
  }

  /** The n bytes of `content` from address a on, addresses taken modulo 2^32. */
  function Span(content: nat -> bv8, a: nat, n: nat): (s: seq<bv8>)
    ensures |s| == n
    decreases n
  {
    if n == 0 then [] else [content(a % ADDR_SPACE)] + Span(content, a + 1, n - 1)
  }

  lemma {:induction false} SpanAppend(content: nat -> bv8, a: nat, n: nat, m: nat)
    ensures Span(content, a, n + m) == Span(content, a, n) + Span(content, a + n, m)
    decreases n
  {
    if n > 0 {
      var head := [content(a % ADDR_SPACE)];
      calc {
        Span(content, a, n + m);
        head + Span(content, a + 1, (n - 1) + m);
        { SpanAppend(content, a + 1, n - 1, m); }
        head + (Span(content, a + 1, n - 1) + Span(content, a + n, m));
        (head + Span(content, a + 1, n - 1)) + Span(content, a + n, m);
        Span(content, a, n) + Span(content, a + n, m);
      }
    }
  }

  lemma {:induction false} SpanWrap(content: nat -> bv8, a: nat, n: nat)
    ensures Span(content, a % ADDR_SPACE, n) == Span(content, a, n)
    decreases n
  {
    if n > 0 {
      ModStep(a);
      SpanWrap(content, a + 1, n - 1);
      SpanWrap(content, a % ADDR_SPACE + 1, n - 1);
    }
  }

  lemma ModStep(a: nat)
    ensures (a % ADDR_SPACE) % ADDR_SPACE == a % ADDR_SPACE
    ensures (a % ADDR_SPACE + 1) % ADDR_SPACE == (a + 1) % ADDR_SPACE
  {
  }

  // ---------------------------------------------------------------- header fetch

  /** The result of `firmware_header_get`. */
  datatype Fetch = Found(hdr: Header) | ReadFailed(err: NegInt) | NotFound

  /** The value `firmware_header_get` returns. */
  function FetchCode(f: Fetch): (ret: int)
    ensures ret == 0 <==> f.Found?
    ensures f.ReadFailed? ==> ret == f.err
    ensures f.NotFound? ==> ret == -EINVAL
  {
    match f
    case Found(_) => 0
    case ReadFailed(e) => e
    case NotFound => -EINVAL
  }

  /** A fetch that gives up and a fetch whose `flash_read` itself fails with
      -EINVAL return the same value, so the caller cannot tell a missing
      header from that read error. */
  lemma GiveUpLooksLikeReadError()
    ensures FetchCode(ReadFailed(-EINVAL)) == FetchCode(NotFound)
  {
  }

  /** The fetch that began with read number `start` and is about to make read
      number k: the header found and the number of the next read. At most
      HEADER_TRIES reads are made, so the fetch gives up at read start + 5. */
  function FetchFrom(flash: Flash, start: nat, k: nat, address: nat): (Fetch, nat)
    requires WellFormed(flash) && start <= k <= start + HEADER_TRIES
    decreases start + HEADER_TRIES - k
  {
    if k == start + HEADER_TRIES then (NotFound, k)
    else
      ReadFits(flash, k, Request(address, HEADER_SIZE));
      match flash(k, Request(address, HEADER_SIZE))
      case Fault(e) => (ReadFailed(e), k + 1)
      case Data(b) =>
        if AcceptedImage(b) then (Found(Parse(b)), k + 1)
        else FetchFrom(flash, start, k + 1, address)
  }

  /** An attempt whose read fails ends the fetch with that error. */
  lemma FetchFromFault(flash: Flash, start: nat, k: nat, address: nat, err: NegInt)
    requires WellFormed(flash) && start <= k < start + HEADER_TRIES
    requires flash(k, Request(address, HEADER_SIZE)) == Fault(err)
    ensures FetchFrom(flash, start, k, address) == (ReadFailed(err), k + 1)
  {
  }

  /** An attempt that reads header hdr ends the fetch if hdr is accepted and
      moves on to the next read otherwise. */
  lemma FetchFromData(flash: Flash, start: nat, k: nat, address: nat, b: seq<bv8>, hdr: Header)
    requires WellFormed(flash) && start <= k < start + HEADER_TRIES
    requires flash(k, Request(address, HEADER_SIZE)) == Data(b)
    requires |b| == HEADER_SIZE && hdr == Parse(b)
    ensures Accepted(hdr) ==> FetchFrom(flash, start, k, address) == (Found(hdr), k + 1)
    ensures !Accepted(hdr) ==> FetchFrom(flash, start, k, address) == FetchFrom(flash, start, k + 1, address)
  {
    AcceptedImageIff(b);
  }

  /** Read number j returned a full header image that the fetch rejects. */
  predicate Rejected(flash: Flash, j: nat, address: nat)
  {
    var rep := flash(j, Request(address, HEADER_SIZE));
    rep.Data? && |rep.bytes| == HEADER_SIZE && !Accepted(Parse(rep.bytes))
  }

  /** The fetch stops after at least one and at most five reads, and gives up
      only at the fifth. */
  lemma {:induction false} FetchBounds(flash: Flash, start: nat, k: nat, address: nat)
    requires WellFormed(flash) && start <= k <= start + HEADER_TRIES
    ensures var (f, k') := FetchFrom(flash, start, k, address);
            && k <= k' <= start + HEADER_TRIES
            && (k < start + HEADER_TRIES ==> k < k')
            && (f.NotFound? ==> k' == start + HEADER_TRIES)
    decreases start + HEADER_TRIES - k
  {
    if k < start + HEADER_TRIES {
      var rep := flash(k, Request(address, HEADER_SIZE));
      ReadFits(flash, k, Request(address, HEADER_SIZE));
      if rep.Data? && !AcceptedImage(rep.bytes) {
        FetchBounds(flash, start, k + 1, address);
      }
    }
  }

  /** Every read before the last returned a rejected image, and so did every
      read of a fetch that gives up. */
  lemma {:induction false} FetchRejected(flash: Flash, start: nat, k: nat, address: nat)
    requires WellFormed(flash) && start <= k <= start + HEADER_TRIES
    ensures var (f, k') := FetchFrom(flash, start, k, address);
            && (forall j :: k <= j < k' - 1 ==> Rejected(flash, j, address))
            && (f.NotFound? ==> forall j :: k <= j < k' ==> Rejected(flash, j, address))
    decreases start + HEADER_TRIES - k
  {
    if k < start + HEADER_TRIES {
      var rep := flash(k, Request(address, HEADER_SIZE));
      ReadFits(flash, k, Request(address, HEADER_SIZE));
      if rep.Data? && !AcceptedImage(rep.bytes) {
        AcceptedImageIff(rep.bytes);
        FetchRejected(flash, start, k + 1, address);
      }
    }
  }

  /** A found header is accepted and is exactly the image the last read
      returned. */
  lemma {:induction false} FetchFoundLast(flash: Flash, start: nat, k: nat, address: nat)
    requires WellFormed(flash) && start <= k <= start + HEADER_TRIES
    ensures var (f, k') := FetchFrom(flash, start, k, address);
            f.Found? ==> k' >= 1 && Accepted(f.hdr) && flash(k' - 1, Request(address, HEADER_SIZE)) == Data(Serialize(f.hdr))
    decreases start + HEADER_TRIES - k
  {
    if k < start + HEADER_TRIES {
      var rep := flash(k, Request(address, HEADER_SIZE));
      ReadFits(flash, k, Request(address, HEADER_SIZE));
      if rep.Data? {
        if AcceptedImage(rep.bytes) {
          AcceptedImageIff(rep.bytes);
          SerializeParse(rep.bytes);
        } else {
          FetchFoundLast(flash, start, k + 1, address);
        }
      }
    }
  }

  /** A read error ends the fetch with the error the last read reported. */
  lemma {:induction false} FetchFailedLast(flash: Flash, start: nat, k: nat, address: nat)
    requires WellFormed(flash) && start <= k <= start + HEADER_TRIES
    ensures var (f, k') := FetchFrom(flash, start, k, address);
            f.ReadFailed? ==> k' >= 1 && flash(k' - 1, Request(address, HEADER_SIZE)) == Fault(f.err)
    decreases start + HEADER_TRIES - k
  {
    if k < start + HEADER_TRIES {
      var rep := flash(k, Request(address, HEADER_SIZE));
      ReadFits(flash, k, Request(address, HEADER_SIZE));
      if rep.Data? && !AcceptedImage(rep.bytes) {
        FetchFailedLast(flash, start, k + 1, address);
      }
    }
  }

  /** An image that holds an accepted header is not rejected. */
  lemma AcceptedNotRejected(flash: Flash, j: nat, address: nat, h: Header)
    requires flash(j, Request(address, HEADER_SIZE)) == Data(Serialize(h)) && Accepted(h)
    ensures !Rejected(flash, j, address)
  {
    ParseSerialize(h);
  }

  /** The fetch gives up exactly when all five reads returned rejected images. */
  lemma {:induction false} FetchGivesUp(flash: Flash, start: nat, address: nat)
    requires WellFormed(flash)
    ensures FetchFrom(flash, start, start, address).0.NotFound?
            <==> forall j :: start <= j < start + HEADER_TRIES ==> Rejected(flash, j, address)
  {
    var (f, k') := FetchFrom(flash, start, start, address);
    FetchBounds(flash, start, start, address);
    FetchRejected(flash, start, start, address);
    FetchFoundLast(flash, start, start, address);
    FetchFailedLast(flash, start, start, address);
    if !f.NotFound? && forall j :: start <= j < start + HEADER_TRIES ==> Rejected(flash, j, address) {
      assert Rejected(flash, k' - 1, address);
      if f.Found? {
        AcceptedNotRejected(flash, k' - 1, address, f.hdr);
      }
    }
  }

  /** `firmware_header_get`: up to five reads of the header at `address`,
      starting with read number k. */
  method FetchHeader(flash: Flash, k: nat, address: nat) returns (f: Fetch, k': nat)
    requires WellFormed(flash)
    ensures (f, k') == FetchFrom(flash, k, k, address)
  {
    var retry := 0;
    while retry < HEADER_TRIES
      invariant 0 <= retry <= HEADER_TRIES
      invariant FetchFrom(flash, k, k, address) == FetchFrom(flash, k, k + retry, address)
    {
      var rep := flash(k + retry, Request(address, HEADER_SIZE));
      ReadFits(flash, k + retry, Request(address, HEADER_SIZE));
      if rep.Fault? {
        FetchFromFault(flash, k, k + retry, address, rep.err);
        return ReadFailed(rep.err), k + retry + 1;
      }
      var hdr := Parse(rep.bytes);
      FetchFromData(flash, k, k + retry, address, rep.bytes, hdr);
      if hdr.magic != PBLBOOT_MAGIC {
        retry := retry + 1;
        continue;
      }
      if hdr.headerLength != HEADER_LENGTH {
        retry := retry + 1;
        continue;
      }
      return Found(hdr), k + retry + 1;
    }
    return NotFound, k + HEADER_TRIES;
  }

  // ---------------------------------------------------------------- payload check

  /** The reads `firmware_validate` makes for `pending` bytes from address addr on
      with a buffer of bs bytes: chunks of MIN(bs, pending), the address advancing
      as a `uint32_t`. */
  function Plan(addr: nat, pending: nat, bs: nat): seq<Request>
    requires bs >= 1
    decreases pending
  {
    if pending == 0 then []
    else
      var len := if bs < pending then bs else pending;
      [Request(addr, len)] + Plan((addr + len) % ADDR_SPACE, pending - len, bs)
  }

  /** The sum of the lengths of a list of reads. */
  function Total(plan: seq<Request>): nat
  {
    if plan == [] then 0 else plan[0].len + Total(plan[1..])
  }

  /** The reads cover exactly `pending` bytes. */
  lemma {:induction false} PlanTotal(addr: nat, pending: nat, bs: nat)
    requires bs >= 1
    ensures Total(Plan(addr, pending, bs)) == pending
    decreases pending
  {
    if pending > 0 {
      var len := if bs < pending then bs else pending;
      var plan := Plan(addr, pending, bs);
      assert plan[1..] == Plan((addr + len) % ADDR_SPACE, pending - len, bs);
      PlanTotal((addr + len) % ADDR_SPACE, pending - len, bs);
    }
  }

  /** The reads start at addr and are contiguous chunks of bs bytes, the last
      one possibly shorter but never empty. */
  lemma {:induction false} PlanChunks(addr: nat, pending: nat, bs: nat)
    requires bs >= 1
    ensures var plan := Plan(addr, pending, bs);
            && (plan != [] ==> plan[0].addr == addr)
            && (forall i :: 0 <= i < |plan| ==> 1 <= plan[i].len <= bs)
            && (forall i :: 0 <= i < |plan| - 1 ==>
                  plan[i].len == bs && plan[i + 1].addr == (plan[i].addr + bs) % ADDR_SPACE)
    decreases pending
  {
    if pending > 0 {
      var len := if bs < pending then bs else pending;
      var next := (addr + len) % ADDR_SPACE;
      var plan := Plan(addr, pending, bs);
      var rest := Plan(next, pending - len, bs);
      assert plan[1..] == rest;
      PlanChunks(next, pending - len, bs);
      forall i | 1 <= i < |plan|
        ensures plan[i] == rest[i - 1]
      {
      }
      if rest != [] {
        assert len == bs;
      }
    }
  }

  /** The outcome of a list of reads: the bytes read, in order, and the number of
      the next read; or the error of the first read that failed. */
  datatype Chunks = Read(bytes: seq<bv8>, next: nat) | ChunkFailed(err: NegInt, next: nat)

  /** Bytes read before the rest of a list of reads. */
  function Prepend(b: seq<bv8>, c: Chunks): Chunks
  {
    match c
    case Read(rest, n) => Read(b + rest, n)
    case ChunkFailed(_, _) => c
  }

  lemma PrependPrepend(a: seq<bv8>, b: seq<bv8>, c: Chunks)
    ensures Prepend(a, Prepend(b, c)) == Prepend(a + b, c)
    ensures Prepend([], c) == c
  {
    if c.Read? {
      assert a + (b + c.bytes) == (a + b) + c.bytes;
      assert [] + c.bytes == c.bytes;
    }
  }

  function ReadChunks(flash: Flash, k: nat, plan: seq<Request>): Chunks
    decreases |plan|
  {
    if plan == [] then Read([], k)
    else
      match flash(k, plan[0])
      case Fault(e) => ChunkFailed(e, k + 1)
      case Data(b) => Prepend(b, ReadChunks(flash, k + 1, plan[1..]))
  }

  /** The reads of `firmware_validate` as its loop makes them: chunks of MIN(bs,
      pending) bytes, stopping at the first error. */
  function Chunked(flash: Flash, k: nat, addr: nat, pending: nat, bs: nat): Chunks
    requires bs >= 1
    decreases pending
  {
    if pending == 0 then Read([], k)
    else
      var len := if bs < pending then bs else pending;
      match flash(k, Request(addr, len))
      case Fault(e) => ChunkFailed(e, k + 1)
      case Data(b) => Prepend(b, Chunked(flash, k + 1, (addr + len) % ADDR_SPACE, pending - len, bs))
  }

  /** The loop makes exactly the reads of the plan, in order. */
  lemma {:induction false} ChunkedPlan(flash: Flash, k: nat, addr: nat, pending: nat, bs: nat)
    requires bs >= 1
    ensures Chunked(flash, k, addr, pending, bs) == ReadChunks(flash, k, Plan(addr, pending, bs))
    decreases pending
  {
    if pending > 0 {
      var len := if bs < pending then bs else pending;
      ChunkedPlan(flash, k + 1, (addr + len) % ADDR_SPACE, pending - len, bs);
      ReadChunksHead(flash, k, addr, pending, bs);
    }
  }

  /** Where the payload of the image at `address` begins: `address +
      hdr->start_offset` as a `uint32_t`. */
  function PayloadStart(address: nat, hdr: Header): nat
  {
    (address + hdr.startOffset as nat) % ADDR_SPACE
  }

  /** `firmware_validate`: the error of the first failing read, else 0 when the
      CRC-32 of the bytes read matches the header and -EIO when it does not; with
      the number of the next read. */
  function ValidateSpec(flash: Flash, k: nat, address: nat, hdr: Header, bs: nat): (r: (int, nat))
    requires bs >= 1
    ensures r.0 <= 0
  {
    match Chunked(flash, k, PayloadStart(address, hdr), hdr.length as nat, bs)
    case ChunkFailed(e, k') => (e, k')
    case Read(data, k') => (if Crc(data) == hdr.crc then 0 else -EIO, k')
  }

  /** A list of reads either all succeed, delivering as many bytes as were asked
      for, or stop at the first that fails and pass its error on. */
  lemma {:induction false} ReadChunksOutcome(flash: Flash, k: nat, plan: seq<Request>)
    requires WellFormed(flash)
    ensures var c := ReadChunks(flash, k, plan);
            && (c.Read? ==>
                  && c.next == k + |plan| && |c.bytes| == Total(plan)
                  && forall i :: 0 <= i < |plan| ==> flash(k + i, plan[i]).Data?)
            && (c.ChunkFailed? ==>
                  && k < c.next <= k + |plan|
                  && flash(c.next - 1, plan[c.next - 1 - k]) == Fault(c.err)
                  && forall i :: 0 <= i < c.next - 1 - k ==> flash(k + i, plan[i]).Data?)
    decreases |plan|
  {
    if plan != [] && flash(k, plan[0]).Data? {
      ReadFits(flash, k, plan[0]);
      ReadChunksOutcome(flash, k + 1, plan[1..]);
      var c := ReadChunks(flash, k + 1, plan[1..]);
      forall i | 0 <= i < |plan| && (c.Read? || i < c.next - 1 - k)
        ensures flash(k + i, plan[i]).Data?
      {
        if i > 0 {
          assert plan[i] == plan[1..][i - 1];
          assert k + i == (k + 1) + (i - 1);
        }
      }
      if c.ChunkFailed? {
        assert plan[c.next - 1 - k] == plan[1..][c.next - 1 - (k + 1)];
      }
    }
  }

  /** The first read of a plan decides: its error, or its bytes before the rest. */
  lemma ReadChunksHead(flash: Flash, k: nat, addr: nat, pending: nat, bs: nat)
    requires bs >= 1 && pending > 0
    ensures var len := if bs < pending then bs else pending;
            var rep := flash(k, Request(addr, len));
            var rest := Plan((addr + len) % ADDR_SPACE, pending - len, bs);
            ReadChunks(flash, k, Plan(addr, pending, bs))
              == if rep.Fault? then ChunkFailed(rep.err, k + 1)
                 else Prepend(rep.bytes, ReadChunks(flash, k + 1, rest))
  {
    var len := if bs < pending then bs else pending;
    var plan := Plan(addr, pending, bs);
    assert plan[0] == Request(addr, len);
    assert plan[1..] == Plan((addr + len) % ADDR_SPACE, pending - len, bs);
  }

  /** A span is the span of its first len bytes followed by the span after them. */
  lemma SpanSplit(content: nat -> bv8, addr: nat, len: nat, pending: nat)
    requires len <= pending
    ensures Span(content, addr, len) + Span(content, (addr + len) % ADDR_SPACE, pending - len)
            == Span(content, addr, pending)
  {
    SpanWrap(content, addr + len, pending - len);
    SpanAppend(content, addr, len, pending - len);
  }

  /** On flash whose content does not change, the chunked reads deliver exactly
      the bytes of the span, for every buffer size. */
  lemma {:induction false} ReadChunksStatic(flash: Flash, content: nat -> bv8, k: nat, addr: nat, pending: nat, bs: nat)
    requires bs >= 1 && Static(flash, content)
    ensures ReadChunks(flash, k, Plan(addr, pending, bs))
            == Read(Span(content, addr, pending), k + |Plan(addr, pending, bs)|)
    decreases pending
  {
    if pending > 0 {
      var len := if bs < pending then bs else pending;
      var next := (addr + len) % ADDR_SPACE;
      var plan := Plan(addr, pending, bs);
      assert flash(k, plan[0]) == Data(Span(content, addr, len));
      assert plan[1..] == Plan(next, pending - len, bs);
      ReadChunksStatic(flash, content, k + 1, next, pending - len, bs);
      SpanSplit(content, addr, len, pending);
    }
  }

  /** On unchanging flash, validation succeeds exactly when the CRC-32 of the
      `length` payload bytes at `address + start_offset` equals the header's
      `crc`, and fails with -EIO otherwise. */
  lemma ValidateStatic(flash: Flash, content: nat -> bv8, k: nat, address: nat, hdr: Header, bs: nat)
    requires bs >= 1 && Static(flash, content)
    ensures var payload := Span(content, PayloadStart(address, hdr), hdr.length as nat);
            && (ValidateSpec(flash, k, address, hdr, bs).0 == 0 <==> Crc(payload) == hdr.crc)
            && (Crc(payload) != hdr.crc ==> ValidateSpec(flash, k, address, hdr, bs).0 == -EIO)
  {
    ChunkedPlan(flash, k, PayloadStart(address, hdr), hdr.length as nat, bs);
    ReadChunksStatic(flash, content, k, PayloadStart(address, hdr), hdr.length as nat, bs);
  }

  /** On unchanging flash the verdict does not depend on the size of the
      read buffer: a 16-byte buffer and one that holds the whole payload
      accept and reject the same images. */
  lemma ValidateBufferIndependent(flash: Flash, content: nat -> bv8, k: nat, address: nat, hdr: Header,
                                  bs1: nat, bs2: nat)
    requires Static(flash, content) && bs1 >= 1 && bs2 >= 1
    ensures ValidateSpec(flash, k, address, hdr, bs1).0 == ValidateSpec(flash, k, address, hdr, bs2).0
  {
    ValidateStatic(flash, content, k, address, hdr, bs1);
    ValidateStatic(flash, content, k, address, hdr, bs2);
  }

  /** The flash driver filling the read buffer with the bytes of one read. */
  method CopyInto(buf: array<bv8>, b: seq<bv8>)
    requires |b| <= buf.Length
    modifies buf
    ensures buf[..|b|] == b && buf[|b|..] == old(buf[|b|..])
  {
    forall i | 0 <= i < |b| {
      buf[i] := b[i];
    }
  }

  /** `flash_read(dev, addr, buf, len)` as read number n: the reply, with the
      bytes of a successful read in the first len cells of buf. */
  method FlashRead(flash: Flash, n: nat, addr: nat, len: nat, buf: array<bv8>) returns (rep: Reply)
    requires WellFormed(flash) && len <= buf.Length
    modifies buf
    ensures rep == flash(n, Request(addr, len))
    ensures rep.Data? ==> buf[..len] == rep.bytes
  {
    rep := flash(n, Request(addr, len));
    if rep.Data? {
      ReadFits(flash, n, Request(addr, len));
      CopyInto(buf, rep.bytes);
    }
  }

  /** The state of the loop of `firmware_validate`: the reads of the whole
      payload, `all`, are the bytes read so far followed by the reads that
      remain from read number n on. */
  ghost predicate ReadSoFar(flash: Flash, all: Chunks, done: seq<bv8>, n: nat, addr: nat, pending: nat, bs: nat)
    requires bs >= 1
  {
    all == Prepend(done, Chunked(flash, n, addr, pending, bs))
  }

  /** A successful read moves its bytes from what remains to what has been read;
      a failing one ends the whole payload check with its error. */
  lemma ReadSoFarStep(flash: Flash, all: Chunks, done: seq<bv8>, n: nat, addr: nat, pending: nat, bs: nat, len: nat)
    requires bs >= 1 && pending > 0 && len == (if bs < pending then bs else pending)
    requires ReadSoFar(flash, all, done, n, addr, pending, bs)
    ensures var rep := flash(n, Request(addr, len));
            && (rep.Fault? ==> all == ChunkFailed(rep.err, n + 1))
            && (rep.Data? ==> ReadSoFar(flash, all, done + rep.bytes, n + 1, (addr + len) % ADDR_SPACE, pending - len, bs))
  {
    var rep := flash(n, Request(addr, len));
    if rep.Data? {
      PrependPrepend(done, rep.bytes, Chunked(flash, n + 1, (addr + len) % ADDR_SPACE, pending - len, bs));
    }
  }

  /** One pass of the loop of `firmware_validate`: `flash_read` of the next
      MIN(bs, pending) bytes into the buffer, and the loop state after it. */
  method ReadChunk(flash: Flash, ghost all: Chunks, ghost done: seq<bv8>, n: nat, addr: nat, pending: nat,
                   buf: array<bv8>) returns (rep: Reply, len: nat, ghost done': seq<bv8>, n': nat, addr': nat, pending': nat)
    requires WellFormed(flash) && buf.Length >= 1 && pending > 0
    requires ReadSoFar(flash, all, done, n, addr, pending, buf.Length)
    modifies buf
    ensures len == (if buf.Length < pending then buf.Length else pending)
    ensures rep.Fault? ==> all == ChunkFailed(rep.err, n + 1)
    ensures rep.Data? ==> buf[..len] == rep.bytes && done' == done + rep.bytes
    ensures n' == n + 1 && pending' == pending - len
    ensures rep.Data? ==> ReadSoFar(flash, all, done', n', addr', pending', buf.Length)
  {
    len := if buf.Length < pending then buf.Length else pending;
    rep := FlashRead(flash, n, addr, len, buf);
    ReadSoFarStep(flash, all, done, n, addr, pending, buf.Length, len);
    done', n', addr', pending' := if rep.Data? then done + rep.bytes else done, n + 1, (addr + len) % ADDR_SPACE, pending - len;
  }

  /** `firmware_validate`, with the static read buffer passed in. */
  method Validate(flash: Flash, k: nat, address: nat, hdr: Header, buf: array<bv8>) returns (ret: int, k': nat)
    requires WellFormed(flash) && buf.Length >= 1
    modifies buf
    ensures (ret, k') == ValidateSpec(flash, k, address, hdr, buf.Length)
  {
    var crc := Crc([]);
    var pending: nat := hdr.length as nat;
    var addr: nat := PayloadStart(address, hdr);
    var n: nat := k;
    ghost var done: seq<bv8> := [];
    ghost var all := Chunked(flash, k, addr, pending, buf.Length);
    PrependPrepend([], [], all);
    while pending > 0
      invariant ReadSoFar(flash, all, done, n, addr, pending, buf.Length)
      invariant crc == Crc(done)
      decreases pending
    {
      var rep, len;
      ghost var done';
      rep, len, done', n, addr, pending := ReadChunk(flash, all, done, n, addr, pending, buf);
      if rep.Fault? {
        return rep.err, n;
      }
      UpdateAppend(0, done, rep.bytes);
      crc := Update(crc, buf[..len]);
      done := done';
    }
    assert done + [] == done;
    assert all == Read(done, n);
    if crc != hdr.crc {
      return -EIO, n;
    }
    return 0, n;
  }

  // ---------------------------------------------------------------- unchanging flash

  /** Unchanging flash always fills the bytes asked for. */
  lemma StaticWellFormed(flash: Flash, content: nat -> bv8)
    requires Static(flash, content)
    ensures WellFormed(flash)
  {
    forall k: nat, rq: Request
      ensures Fits(flash(k, rq), rq.len)
    {
      assert flash(k, rq) == Data(Span(content, rq.addr, rq.len));
    }
  }

  /** The bytes a slot holds where its header belongs. */
  function HeaderImage(content: nat -> bv8, address: nat): (b: seq<bv8>)
    ensures |b| == HEADER_SIZE
  {
    Span(content, address, HEADER_SIZE)
  }

  /** When every remaining try reads the same image, the fetch either finds it at
      the next try or gives up after the last. */
  lemma {:induction false} FetchSame(flash: Flash, start: nat, k: nat, address: nat, img: seq<bv8>)
    requires WellFormed(flash) && start <= k < start + HEADER_TRIES && |img| == HEADER_SIZE
    requires forall j: nat | k <= j < start + HEADER_TRIES :: flash(j, Request(address, HEADER_SIZE)) == Data(img)
    ensures Accepted(Parse(img)) ==> FetchFrom(flash, start, k, address) == (Found(Parse(img)), k + 1)
    ensures !Accepted(Parse(img)) ==> FetchFrom(flash, start, k, address) == (NotFound, start + HEADER_TRIES)
    decreases start + HEADER_TRIES - k
  {
    FetchFromData(flash, start, k, address, img, Parse(img));
    if !Accepted(Parse(img)) && k + 1 < start + HEADER_TRIES {
      FetchSame(flash, start, k + 1, address, img);
    }
  }

  /** On unchanging flash every try reads the header image the slot holds. */
  lemma FetchStatic(flash: Flash, content: nat -> bv8, k: nat, address: nat)
    requires Static(flash, content) && WellFormed(flash)
    ensures var img := HeaderImage(content, address);
            && (Accepted(Parse(img)) ==> FetchFrom(flash, k, k, address) == (Found(Parse(img)), k + 1))
            && (!Accepted(Parse(img)) ==> FetchFrom(flash, k, k, address) == (NotFound, k + HEADER_TRIES))
  {
    var img := HeaderImage(content, address);
    forall j: nat | k <= j < k + HEADER_TRIES
      ensures flash(j, Request(address, HEADER_SIZE)) == Data(img)
    {
    }
    FetchSame(flash, k, k, address, img);
  }

  // ---------------------------------------------------------------- slots

  /** What checking one image yields: its header when both the fetch and the CRC
      check pass, else the first error. */
  datatype Probe = Valid(hdr: Header) | Invalid(err: NegInt)

  /** The image check at the top of `pb_firmware_load_prf` and the two identical
      slot checks of `pb_firmware_load`: fetch the header, then validate the
      payload; with the number of the next read. */
  function ProbeSpec(flash: Flash, k: nat, address: nat, bs: nat): (r: (Probe, nat))
    requires WellFormed(flash) && bs >= 1
    ensures r.0.Valid? ==> Accepted(r.0.hdr)
  {
    var (f, k1) := FetchFrom(flash, k, k, address);
    FetchFoundLast(flash, k, k, address);
    match f
    case ReadFailed(e) => (Invalid(e), k1)
    case NotFound => (Invalid(-EINVAL), k1)
    case Found(hdr) =>
      var (v, k2) := ValidateSpec(flash, k1, address, hdr, bs);
      if v == 0 then (Valid(hdr), k2) else (Invalid(v), k2)
  }

  /** The payload an accepted header describes. */
  function Payload(content: nat -> bv8, address: nat, hdr: Header): seq<bv8>
  {
    Span(content, PayloadStart(address, hdr), hdr.length as nat)
  }

  /** How the probe continues from the outcome of the header fetch. */
  lemma ProbeSteps(flash: Flash, k: nat, address: nat, bs: nat, hdr: Header)
    requires WellFormed(flash) && bs >= 1
    ensures FetchFrom(flash, k, k, address).0 == NotFound ==> ProbeSpec(flash, k, address, bs).0 == Invalid(-EINVAL)
    ensures FetchFrom(flash, k, k, address) == (Found(hdr), k + 1) ==>
              var v := ValidateSpec(flash, k + 1, address, hdr, bs).0;
              ProbeSpec(flash, k, address, bs).0 == if v == 0 then Valid(hdr) else Invalid(v)
  {
  }

  /** On unchanging flash an image is valid exactly when its header is accepted
      and the CRC-32 of its payload matches; a bad header gives -EINVAL and a
      bad payload -EIO. */
  lemma ProbeStatic(flash: Flash, content: nat -> bv8, k: nat, address: nat, bs: nat)
    requires Static(flash, content) && bs >= 1
    ensures WellFormed(flash)
    ensures var hdr := Parse(HeaderImage(content, address));
            ProbeSpec(flash, k, address, bs).0
              == if !Accepted(hdr) then Invalid(-EINVAL)
                 else if Crc(Payload(content, address, hdr)) == hdr.crc then Valid(hdr)
                 else Invalid(-EIO)
  {
    StaticWellFormed(flash, content);
    FetchStatic(flash, content, k, address);
    var hdr := Parse(HeaderImage(content, address));
    ProbeSteps(flash, k, address, bs, hdr);
    if Accepted(hdr) {
      ValidateStatic(flash, content, k + 1, address, hdr, bs);
    }
  }

  /** The slot `pb_firmware_load` jumps to. */
  datatype Choice = Slot0 | Slot1 | NoSlot

  /** The decision of `pb_firmware_load` over the two slots' validity and
      timestamps, branch for branch. The inner test of the second branch can
      never pick slot 0, since that branch is only reached when slot 0 is
      invalid. */
  function ChooseSlot(valid0: bool, ts0: bv64, valid1: bool, ts1: bv64): (c: Choice)
    ensures c.Slot0? ==> valid0
    ensures c.Slot1? ==> valid1
  {
    if valid0 then
      if valid1 && ts1 > ts0 then Slot1 else Slot0
    else if valid1 then
      if valid0 && ts0 > ts1 then Slot0 else Slot1
    else NoSlot
  }

  /** Recovery is chosen exactly when neither slot is valid; with both valid,
      slot 1 wins exactly when it is strictly newer, so a tie goes to slot 0;
      with one valid, that one is chosen. */
  lemma ChooseSlotCases(valid0: bool, ts0: bv64, valid1: bool, ts1: bv64)
    ensures ChooseSlot(valid0, ts0, valid1, ts1).NoSlot? <==> !valid0 && !valid1
    ensures valid0 && valid1 ==> (ChooseSlot(valid0, ts0, valid1, ts1).Slot1? <==> ts1 > ts0)
    ensures valid0 && !valid1 ==> ChooseSlot(valid0, ts0, valid1, ts1) == Slot0
    ensures !valid0 && valid1 ==> ChooseSlot(valid0, ts0, valid1, ts1) == Slot1
  {
  }

  /** The chosen slot holds the newest valid image, and the timestamp of an
      invalid slot never matters. */
  lemma ChooseSlotNewest(valid0: bool, ts0: bv64, valid1: bool, ts1: bv64, ts0': bv64, ts1': bv64)
    ensures ChooseSlot(valid0, ts0, valid1, ts1).Slot0? ==> valid1 ==> ts0 >= ts1
    ensures ChooseSlot(valid0, ts0, valid1, ts1).Slot1? ==> valid0 ==> ts1 > ts0
    ensures !valid0 ==> ChooseSlot(valid0, ts0, valid1, ts1) == ChooseSlot(valid0, ts0', valid1, ts1)
    ensures !valid1 ==> ChooseSlot(valid0, ts0, valid1, ts1) == ChooseSlot(valid0, ts0, valid1, ts1')
  {
  }

  // ---------------------------------------------------------------- loading

  /** The devicetree addresses: the base of the flash in the CPU's address map
      and the offsets of slot 0, slot 1 and the recovery image in the flash. */
  datatype Layout = Layout(flashBase: bv32, slot0: bv32, slot1: bv32, prf: bv32)

  /** `CONFIG_FLASH_BASE_ADDRESS + slot + hdr.start_offset` as a `uint32_t`. */
  function LoadAddress(lay: Layout, slot: bv32, hdr: Header): bv32
  {
    lay.flashBase + slot + hdr.startOffset
  }

  /** How a load ends: a jump, which does not return, or an error. */
  datatype Load = Jumped(addr: bv32) | Failed(err: NegInt)

  /** `pb_firmware_load_prf`: a valid recovery image is marked as starting and
      jumped to; otherwise its error is returned and the boot bits are kept.
      With the new boot bits and the number of the next read. */
  function LoadPrfSpec(s: Flags, flash: Flash, k: nat, lay: Layout, bs: nat): (Load, Flags, nat)
    requires WellFormed(flash) && bs >= 1
  {
    match ProbeSpec(flash, k, lay.prf as nat, bs)
    case (Invalid(e), k') => (Failed(e), s, k')
    case (Valid(hdr), k') => (Jumped(LoadAddress(lay, lay.prf, hdr)), s + {RecoveryStartInProgress}, k')
  }

  /** The timestamp the decision reads for a slot; that of an invalid slot is
      never looked at. */
  function Stamp(p: Probe): bv64
  {
    if p.Valid? then p.hdr.timestamp else 0
  }

  /** The end of `pb_firmware_load` once both slots are checked: the chosen slot
      is jumped to, and with neither valid the recovery load `fallback` (made
      from read number k on) takes over. */
  function SlotLoad(lay: Layout, p0: Probe, p1: Probe, s: Flags, k: nat, fallback: (Load, Flags, nat)): (Load, Flags, nat)
  {
    match ChooseSlot(p0.Valid?, Stamp(p0), p1.Valid?, Stamp(p1))
    case Slot0 => (Jumped(LoadAddress(lay, lay.slot0, p0.hdr)), s, k)
    case Slot1 => (Jumped(LoadAddress(lay, lay.slot1, p1.hdr)), s, k)
    case NoSlot => fallback
  }

  /** `pb_firmware_load`: both slots are checked, the chosen one is jumped to,
      and with neither valid the recovery image is loaded instead. */
  function LoadSpec(s: Flags, flash: Flash, k: nat, lay: Layout, bs: nat): (Load, Flags, nat)
    requires WellFormed(flash) && bs >= 1
  {
    var q0 := ProbeSpec(flash, k, lay.slot0 as nat, bs);
    var q1 := ProbeSpec(flash, q0.1, lay.slot1 as nat, bs);
    SlotLoad(lay, q0.0, q1.0, s, q1.1, LoadPrfSpec(s, flash, q1.1, lay, bs))
  }

  /** A slot jump keeps the boot bits and goes to the newest valid slot; only
      with no valid slot does the fallback decide. */
  lemma SlotLoadOutcome(lay: Layout, p0: Probe, p1: Probe, s: Flags, k: nat, fallback: (Load, Flags, nat))
    ensures !p0.Valid? && !p1.Valid? ==> SlotLoad(lay, p0, p1, s, k, fallback) == fallback
    ensures p0.Valid? || p1.Valid? ==>
              SlotLoad(lay, p0, p1, s, k, fallback).0.Jumped? && SlotLoad(lay, p0, p1, s, k, fallback).1 == s
    ensures p0.Valid? && (p1.Valid? ==> Stamp(p0) >= Stamp(p1)) ==>
              SlotLoad(lay, p0, p1, s, k, fallback).0 == Jumped(LoadAddress(lay, lay.slot0, p0.hdr))
    ensures p1.Valid? && (p0.Valid? ==> Stamp(p1) > Stamp(p0)) ==>
              SlotLoad(lay, p0, p1, s, k, fallback).0 == Jumped(LoadAddress(lay, lay.slot1, p1.hdr))
  {
    ChooseSlotCases(p0.Valid?, Stamp(p0), p1.Valid?, Stamp(p1));
  }

  /** The recovery image is marked as starting only when it is jumped to: a
      failed load changes no boot bit, and a jump sets exactly that flag. */
  lemma LoadPrfBits(s: Flags, flash: Flash, k: nat, lay: Layout, bs: nat)
    requires WellFormed(flash) && bs >= 1
    ensures var p := ProbeSpec(flash, k, lay.prf as nat, bs).0;
            var out := LoadPrfSpec(s, flash, k, lay, bs);
            && (out.0.Jumped? <==> p.Valid?)
            && (out.0.Failed? ==> out.1 == s && out.0.err == p.err)
            && (out.0.Jumped? ==> out.1 == s + {RecoveryStartInProgress}
                                  && out.0.addr == LoadAddress(lay, lay.prf, p.hdr))
  {
  }

  /** A load that fails found no valid image anywhere, reports the recovery
      image's error and changes no boot bit. Which slot a successful load jumps
      to is `SlotLoadOutcome` applied to the two slot checks. */
  lemma LoadFailure(s: Flags, flash: Flash, k: nat, lay: Layout, bs: nat)
    requires WellFormed(flash) && bs >= 1
    ensures var q0 := ProbeSpec(flash, k, lay.slot0 as nat, bs);
            var q1 := ProbeSpec(flash, q0.1, lay.slot1 as nat, bs);
            var out := LoadSpec(s, flash, k, lay, bs);
            out.0.Failed? ==> !q0.0.Valid? && !q1.0.Valid? && out.1 == s
                              && ProbeSpec(flash, q1.1, lay.prf as nat, bs).0 == Invalid(out.0.err)
  {
    var q0 := ProbeSpec(flash, k, lay.slot0 as nat, bs);
    var q1 := ProbeSpec(flash, q0.1, lay.slot1 as nat, bs);
    SlotLoadOutcome(lay, q0.0, q1.0, s, q1.1, LoadPrfSpec(s, flash, q1.1, lay, bs));
    LoadPrfBits(s, flash, q1.1, lay, bs);
  }

  /** The only boot bit a load ever changes is the recovery-starting flag,
      which a jump to the recovery image sets. */
  lemma LoadBits(s: Flags, flash: Flash, k: nat, lay: Layout, bs: nat)
    requires WellFormed(flash) && bs >= 1
    ensures var s' := LoadSpec(s, flash, k, lay, bs).1;
            s' == s || s' == s + {RecoveryStartInProgress}
  {
    var q0 := ProbeSpec(flash, k, lay.slot0 as nat, bs);
    var q1 := ProbeSpec(flash, q0.1, lay.slot1 as nat, bs);
    SlotLoadOutcome(lay, q0.0, q1.0, s, q1.1, LoadPrfSpec(s, flash, q1.1, lay, bs));
    LoadPrfBits(s, flash, q1.1, lay, bs);
  }

  /** `pb_firmware_init`: the flash device must be ready. */
  function FirmwareInit(flashReady: bool): (ret: int)
    ensures ret == 0 <==> flashReady
    ensures ret != 0 ==> ret == -ENODEV
  {
    if !flashReady then -ENODEV else 0
  }

  // ---------------------------------------------------------------- imperative

  /** One image check, as written twice in `pb_firmware_load` and once in
      `pb_firmware_load_prf`. */
  method ProbeImage(flash: Flash, k: nat, address: nat, buf: array<bv8>) returns (p: Probe, k': nat)
    requires WellFormed(flash) && buf.Length >= 1
    modifies buf
    ensures (p, k') == ProbeSpec(flash, k, address, buf.Length)
  {
    var f, k1 := FetchHeader(flash, k, address);
    var ret := FetchCode(f);
    if ret < 0 {
      return Invalid(ret), k1;
    }
    var hdr := f.hdr;
    ret, k' := Validate(flash, k1, address, hdr, buf);
    if ret < 0 {
      return Invalid(ret), k';
    }
    return Valid(hdr), k';
  }

  /** `pb_firmware_load_prf` on the boot-bit register `bits`. */
  method LoadPrf(bits: BootBits, flash: Flash, k: nat, lay: Layout, buf: array<bv8>) returns (res: Load, k': nat)
    requires WellFormed(flash) && buf.Length >= 1
    modifies bits, buf
    ensures (res, bits.Flags(), k') == LoadPrfSpec(old(bits.Flags()), flash, k, lay, buf.Length)
  {
    var p;
    p, k' := ProbeImage(flash, k, lay.prf as nat, buf);
    if p.Invalid? {
      return Failed(p.err), k';
    }
    bits.PrfStartingSet();
    return Jumped(LoadAddress(lay, lay.prf, p.hdr)), k';
  }

  /** `pb_firmware_load` on the boot-bit register `bits`. */
  method LoadFirmware(bits: BootBits, flash: Flash, k: nat, lay: Layout, buf: array<bv8>) returns (res: Load, k': nat)
    requires WellFormed(flash) && buf.Length >= 1
    modifies bits, buf
    ensures (res, bits.Flags(), k') == LoadSpec(old(bits.Flags()), flash, k, lay, buf.Length)
  {
    var p0, k1 := ProbeImage(flash, k, lay.slot0 as nat, buf);
    var p1, k2 := ProbeImage(flash, k1, lay.slot1 as nat, buf);
    ghost var fallback := LoadPrfSpec(bits.Flags(), flash, k2, lay, buf.Length);
    assert LoadSpec(bits.Flags(), flash, k, lay, buf.Length) == SlotLoad(lay, p0, p1, bits.Flags(), k2, fallback);
    match ChooseSlot(p0.Valid?, Stamp(p0), p1.Valid?, Stamp(p1))
    case Slot0 =>
      return Jumped(LoadAddress(lay, lay.slot0, p0.hdr)), k2;
    case Slot1 =>
      return Jumped(LoadAddress(lay, lay.slot1, p1.hdr)), k2;
    case NoSlot =>
      res, k' := LoadPrf(bits, flash, k2, lay, buf);
  }
}

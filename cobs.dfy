/** Consistent Overhead Byte Stuffing (Cheshire and Baker, 1999) as encoded by
    `lib/pb/cobs/cobs.c`, with the buffer-size macros of `include/pb/cobs.h`.

    An encoding is a sequence of blocks. A block is a code byte `c` followed
    by `c - 1` data bytes; `c = 0xFF` marks a full block of 254 data bytes that
    is not followed by a zero, every smaller code stands for its data bytes and
    then one zero byte, except in the last block, which ends the input.

    The encoder keeps its code byte in a `uint8_t` that it increments for every
    non-zero input byte. As written, the test that should close a full block,
    `code == 0xFF && src_idx > len - 1`, never holds inside the loop, so a run
    of 254 non-zero bytes is never split: `AsWritten` is that encoder and
    `Blocks` the encoder with the split the test evidently intends. */
module Cobs {

  datatype Option<T> = None | Some(value: T)

  /** A `uint8_t`. */
  type Byte = b: int | 0 <= b < 256

  predicate NonZero(s: seq<Byte>)
  {
    forall i :: 0 <= i < |s| ==> s[i] != 0
  }

  /** `PB_COBS_OVERHEAD(n)`. */
  function Overhead(n: nat): nat
  {
    (n + 253) / 254
  }

  /** `PB_COBS_MAX_ENC_SIZE(n)`. */
  function MaxEncSize(n: nat): nat
  {
    n + Overhead(n)
  }

  /** The overhead is the number of 254-byte blocks that `n` bytes need,
      rounded up, and the size bound is never below the input length. */
  lemma OverheadIsCeiling(n: nat)
    ensures 254 * Overhead(n) >= n
    ensures forall k: nat :: 254 * k >= n ==> Overhead(n) <= k
    ensures MaxEncSize(n) >= n
  {
  }

  /** A bound that also covers the empty input: one code byte per started
      block of 254 bytes, and one for an empty input. */
  function FixedMaxEncSize(n: nat): nat
  {
    n + n / 254 + 1
  }

  /** The code byte that closes a block of `n` data bytes, as the
      `uint8_t` counter holds it: `n + 1` reduced modulo 256. */
  function Code(n: nat): Byte
  {
    (n + 1) % 256
  }

  /** The encoder's output, as written, for the remaining input `rest` while
      the non-zero bytes `run` have been copied since the last code position.
      A zero byte closes the block, the end of the input closes the last one,
      and no block is ever closed for being full. */
  function AsWritten(run: seq<Byte>, rest: seq<Byte>): seq<Byte>
    decreases |rest|
  {
    if rest == [] then [Code(|run|)] + run
    else if rest[0] == 0 then [Code(|run|)] + run + AsWritten([], rest[1..])
    else AsWritten(run + [rest[0]], rest[1..])
  }

  function EncodeAsWritten(x: seq<Byte>): seq<Byte>
  {
    AsWritten([], x)
  }

  /** The encoder with the full-block split: when the 254th non-zero byte of
      a run has been copied and more input follows, the block is closed with
      code 0xFF and a new one is opened. */
  function Blocks(run: seq<Byte>, rest: seq<Byte>): seq<Byte>
    decreases |rest|
  {
    if rest == [] then [Code(|run|)] + run
    else if rest[0] == 0 then [Code(|run|)] + run + Blocks([], rest[1..])
    else if |run| + 1 == 254 && |rest| > 1 then [0xFF] + run + [rest[0]] + Blocks([], rest[1..])
    else Blocks(run + [rest[0]], rest[1..])
  }

  function Encode(x: seq<Byte>): seq<Byte>
  {
    Blocks([], x)
  }

  /** Standard COBS decoding: None for an empty input, a zero code byte or a
      block that runs past the end. */
  function Decode(e: seq<Byte>): (r: Option<seq<Byte>>)
    decreases |e|
  {
    if e == [] then None
    else
      var c := e[0];
      if c == 0 || c > |e| then None
      else if c == |e| then Some(e[1..])
      else match Decode(e[c..])
        case None => None
        case Some(tail) => Some(e[1..c] + Sep(c == 0xFF) + tail)
  }

  /** What follows the data bytes of a block that is not the last one: nothing
      after a full block, a zero after any other. */
  function Sep(full: bool): seq<Byte>
  {
    if full then [] else [0]
  }

  /** With a current run of `n` bytes, every run of non-zero bytes of `rest`,
      the current one included, is shorter than `k`. */
  predicate RunsBelow(n: nat, rest: seq<Byte>, k: nat)
    decreases |rest|
  {
    n < k && (rest == [] || RunsBelow(if rest[0] == 0 then 0 else n + 1, rest[1..], k))
  }

  /** The encoder's state between two input bytes: the current run is short
      enough to take another byte, or it is full and the input has ended. */
  predicate Open(run: seq<Byte>, rest: seq<Byte>)
  {
    |run| <= 253 || (|run| == 254 && rest == [])
  }

  // --- the encoder as written ---

  /** One output byte per input byte, and one code byte besides. */
  lemma {:induction false} AsWrittenLength(run: seq<Byte>, rest: seq<Byte>)
    ensures |AsWritten(run, rest)| == |run| + |rest| + 1
    decreases |rest|
  {
    if rest == [] {
    } else if rest[0] == 0 {
      AsWrittenLength([], rest[1..]);
    } else {
      AsWrittenLength(run + [rest[0]], rest[1..]);
    }
  }

  /** Copying a stretch of non-zero bytes only lengthens the current run. */
  lemma {:induction false} AsWrittenRun(run: seq<Byte>, nz: seq<Byte>, tail: seq<Byte>)
    requires NonZero(nz)
    ensures AsWritten(run, nz + tail) == AsWritten(run + nz, tail)
    decreases |nz|
  {
    if nz != [] {
      assert nz[0] != 0 && NonZero(nz[1..]);
      assert (nz + tail)[0] == nz[0];
      assert (nz + tail)[1..] == nz[1..] + tail;
      assert run + [nz[0]] + nz[1..] == run + nz;
      AsWrittenRun(run + [nz[0]], nz[1..], tail);
    } else {
      assert nz + tail == tail && run + nz == run;
    }
  }

  /** While every run stays below 255 bytes no code wraps to 0, so the output
      carries no zero byte. */
  lemma {:induction false} AsWrittenZeroFree(run: seq<Byte>, rest: seq<Byte>)
    requires NonZero(run) && RunsBelow(|run|, rest, 255)
    ensures NonZero(AsWritten(run, rest))
    decreases |rest|
  {
    if rest == [] {
    } else if rest[0] == 0 {
      AsWrittenZeroFree([], rest[1..]);
    } else {
      AsWrittenZeroFree(run + [rest[0]], rest[1..]);
    }
  }

  /** While every run stays below 254 bytes no block is ever full, and the
      encoder as written produces the standard encoding. */
  lemma {:induction false} AsWrittenAgrees(run: seq<Byte>, rest: seq<Byte>)
    requires RunsBelow(|run|, rest, 254)
    ensures AsWritten(run, rest) == Blocks(run, rest)
    decreases |rest|
  {
    if rest == [] {
    } else if rest[0] == 0 {
      AsWrittenAgrees([], rest[1..]);
    } else {
      AsWrittenAgrees(run + [rest[0]], rest[1..]);
    }
  }

  /** A run of 254 non-zero bytes followed by a zero is encoded with the code
      0xFF, which a decoder reads as a full block with no zero after it: the
      zero byte is lost. */
  lemma FullRunLosesZero(nz: seq<Byte>)
    requires |nz| == 254 && NonZero(nz)
    ensures EncodeAsWritten(nz + [0]) == [0xFF] + nz + [1]
    ensures Decode(EncodeAsWritten(nz + [0])) == Some(nz)
    ensures Decode(EncodeAsWritten(nz + [0])) != Some(nz + [0])
  {
    AsWrittenRun([], nz, [0]);
    assert [] + nz == nz;
    var e := [0xFF] + nz + [1];
    assert e[255..] == [1] && [1][1..] == [];
    DecodeLast([], [1]);
    DecodeStep(e, 255, nz, [1], []);
    assert nz + Sep(true) + [] == nz;
  }

  /** Such an input exists: 254 bytes 0x01 and then 0x00. */
  lemma FullRunExample()
    ensures NonZero(seq(254, i => 1))
    ensures Decode(EncodeAsWritten(seq(254, i => 1) + [0])) == Some(seq(254, i => 1))
  {
    FullRunLosesZero(seq(254, i => 1));
  }

  /** A run of 255 non-zero bytes wraps the code byte to 0: the output is no
      longer free of zeros and does not decode at all. */
  lemma LongRunWraps(nz: seq<Byte>)
    requires |nz| == 255 && NonZero(nz)
    ensures EncodeAsWritten(nz) == [0] + nz
    ensures Decode(EncodeAsWritten(nz)) == None
  {
    AsWrittenRun([], nz, []);
    assert [] + nz == nz && nz + [] == nz;
  }

  // --- the standard encoder ---

  /** Every input byte is kept, so the output is longer than the input. */
  lemma {:induction false} BlocksLonger(run: seq<Byte>, rest: seq<Byte>)
    ensures |Blocks(run, rest)| >= |run| + |rest| + 1
    decreases |rest|
  {
    if rest == [] {
    } else if rest[0] == 0 {
      BlocksLonger([], rest[1..]);
    } else if |run| + 1 == 254 && |rest| > 1 {
      BlocksLonger([], rest[1..]);
    } else {
      BlocksLonger(run + [rest[0]], rest[1..]);
    }
  }

  /** At most one code byte per started 254 bytes of input. */
  lemma {:induction false} BlocksShort(run: seq<Byte>, rest: seq<Byte>)
    requires Open(run, rest) && |run| + |rest| >= 1
    ensures |Blocks(run, rest)| <= |run| + |rest| + 1 + (|run| + |rest| - 1) / 254
    decreases |rest|
  {
    var n := |run| + |rest|;
    if rest == [] {
    } else if rest[0] == 0 {
      if |rest| > 1 {
        BlocksShort([], rest[1..]);
        assert (|rest| - 2) / 254 <= (n - 1) / 254;
      }
    } else if |run| + 1 == 254 && |rest| > 1 {
      BlocksShort([], rest[1..]);
      assert (|rest| - 2) / 254 + 1 == (n - 1) / 254;
    } else {
      BlocksShort(run + [rest[0]], rest[1..]);
    }
  }

  /** Every code byte lies in 1..255 and every data byte is non-zero. */
  lemma {:induction false} BlocksZeroFree(run: seq<Byte>, rest: seq<Byte>)
    requires NonZero(run) && Open(run, rest)
    ensures NonZero(Blocks(run, rest))
    decreases |rest|
  {
    if rest == [] {
    } else if rest[0] == 0 {
      BlocksZeroFree([], rest[1..]);
    } else if |run| + 1 == 254 && |rest| > 1 {
      BlocksZeroFree([], rest[1..]);
    } else {
      BlocksZeroFree(run + [rest[0]], rest[1..]);
    }
  }

  /** A last block decodes to its data bytes. */
  lemma DecodeLast(block: seq<Byte>, e: seq<Byte>)
    requires |block| <= 254 && e == [|block| + 1] + block
    ensures Decode(e) == Some(block)
  {
    assert e[1..] == block;
  }

  /** One step of decoding, for an encoding `e` that is cut into its first
      block and the rest. */
  lemma DecodeStep(e: seq<Byte>, c: nat, block: seq<Byte>, tail: seq<Byte>, t: seq<Byte>)
    requires e != [] && c == e[0] && 0 < c < |e| && e[1..c] == block && e[c..] == tail
    requires Decode(tail) == Some(t)
    ensures Decode(e) == Some(block + Sep(c == 0xFF) + t)
  {
  }

  /** A block followed by more blocks decodes to its data bytes, a zero
      unless the block is full, and the decoding of the rest. */
  lemma DecodeBlock(block: seq<Byte>, tail: seq<Byte>, t: seq<Byte>, e: seq<Byte>)
    requires |block| <= 254 && tail != [] && Decode(tail) == Some(t)
    requires e == [|block| + 1] + block + tail
    ensures Decode(e) == Some(block + Sep(|block| == 254) + t)
  {
    var c := |block| + 1;
    assert e[0] == c && c < |e|;
    assert e[c..] == tail;
    assert e[1..c] == block;
    DecodeStep(e, c, block, tail, t);
  }

  /** The first block of an encoding that a zero byte closes. */
  lemma BlocksZeroShape(run: seq<Byte>, rest: seq<Byte>)
    requires rest != [] && rest[0] == 0 && |run| <= 253
    ensures Blocks(run, rest) == [|run| + 1] + run + Blocks([], rest[1..])
  {
    CodeSmall(|run|);
  }

  /** The first block of an encoding that is full with more input after it. */
  lemma BlocksFullShape(run: seq<Byte>, rest: seq<Byte>)
    requires |rest| > 1 && rest[0] != 0 && |run| == 253
    ensures Blocks(run, rest) == [|run + [rest[0]]| + 1] + (run + [rest[0]]) + Blocks([], rest[1..])
  {
    var x := Blocks([], rest[1..]);
    assert Blocks(run, rest) == [0xFF] + run + [rest[0]] + x;
    assert [0xFF] + run + [rest[0]] + x == [0xFF] + (run + [rest[0]]) + x;
  }

  /** A block of the run closed by a zero byte, followed by the encoding
      `tail` of the remaining input, decodes to the run and that input. */
  lemma DecodeZero(run: seq<Byte>, rest: seq<Byte>, tail: seq<Byte>, e: seq<Byte>)
    requires rest != [] && rest[0] == 0 && |run| <= 253
    requires tail != [] && Decode(tail) == Some(rest[1..])
    requires e == [|run| + 1] + run + tail
    ensures Decode(e) == Some(run + rest)
  {
    DecodeBlock(run, tail, rest[1..], e);
    assert run + Sep(false) + rest[1..] == run + rest;
  }

  /** A full block made of the run and the next byte, followed by the
      encoding `tail` of the input after that byte, decodes to the run and
      the remaining input. */
  lemma DecodeFull(run: seq<Byte>, rest: seq<Byte>, tail: seq<Byte>, e: seq<Byte>)
    requires rest != [] && |run| == 253
    requires tail != [] && Decode(tail) == Some(rest[1..])
    requires e == [|run + [rest[0]]| + 1] + (run + [rest[0]]) + tail
    ensures Decode(e) == Some(run + rest)
  {
    DecodeBlock(run + [rest[0]], tail, rest[1..], e);
    assert run + [rest[0]] + Sep(true) + rest[1..] == run + rest;
  }

  lemma DecodeZeroCase(run: seq<Byte>, rest: seq<Byte>)
    requires rest != [] && rest[0] == 0 && |run| <= 253
    requires Decode(Blocks([], rest[1..])) == Some(rest[1..])
    ensures Decode(Blocks(run, rest)) == Some(run + rest)
  {
    BlocksLonger([], rest[1..]);
    BlocksZeroShape(run, rest);
    DecodeZero(run, rest, Blocks([], rest[1..]), Blocks(run, rest));
  }

  lemma DecodeFullCase(run: seq<Byte>, rest: seq<Byte>)
    requires |rest| > 1 && rest[0] != 0 && |run| == 253
    requires Decode(Blocks([], rest[1..])) == Some(rest[1..])
    ensures Decode(Blocks(run, rest)) == Some(run + rest)
  {
    BlocksLonger([], rest[1..]);
    BlocksFullShape(run, rest);
    DecodeFull(run, rest, Blocks([], rest[1..]), Blocks(run, rest));
  }

  /** Decoding recovers the run and the rest of the input. */
  lemma {:induction false} BlocksDecode(run: seq<Byte>, rest: seq<Byte>)
    requires Open(run, rest)
    ensures Decode(Blocks(run, rest)) == Some(run + rest)
    decreases |rest|
  {
    if rest == [] {
      DecodeLast(run, Blocks(run, rest));
      assert run + rest == run;
    } else if rest[0] == 0 {
      BlocksDecode([], rest[1..]);
      assert [] + rest[1..] == rest[1..];
      DecodeZeroCase(run, rest);
    } else if |run| + 1 == 254 && |rest| > 1 {
      BlocksDecode([], rest[1..]);
      assert [] + rest[1..] == rest[1..];
      DecodeFullCase(run, rest);
    } else {
      BlocksDecode(run + [rest[0]], rest[1..]);
      assert run + [rest[0]] + rest[1..] == run + rest;
    }
  }

  /** The standard encoding of any input is free of zeros, decodes back to
      the input and fits both size bounds; `PB_COBS_MAX_ENC_SIZE` only from one
      input byte on. */
  lemma EncodeCorrect(x: seq<Byte>)
    ensures Decode(Encode(x)) == Some(x)
    ensures NonZero(Encode(x))
    ensures |x| + 1 <= |Encode(x)| <= FixedMaxEncSize(|x|)
    ensures |x| >= 1 ==> |Encode(x)| <= MaxEncSize(|x|)
  {
    BlocksDecode([], x);
    assert [] + x == x;
    BlocksZeroFree([], x);
    BlocksLonger([], x);
    if |x| >= 1 {
      BlocksShort([], x);
    }
  }

  /** The encoder as written returns `len + 1` for every input; its output
      is free of zeros while every run of non-zero bytes is at most 254 long,
      and decodes back to the input while every run is at most 253 long (a
      run of exactly 254 before a zero loses that zero, `FullRunLosesZero`). */
  lemma EncodeAsWrittenCorrect(x: seq<Byte>)
    ensures |EncodeAsWritten(x)| == |x| + 1
    ensures RunsBelow(0, x, 255) ==> NonZero(EncodeAsWritten(x))
    ensures RunsBelow(0, x, 254) ==> Decode(EncodeAsWritten(x)) == Some(x)
  {
    AsWrittenLength([], x);
    if RunsBelow(0, x, 255) {
      AsWrittenZeroFree([], x);
    }
    if RunsBelow(0, x, 254) {
      AsWrittenAgrees([], x);
      EncodeCorrect(x);
    }
  }

  /** A stretch too short to hold a long run has none. */
  lemma {:induction false} ShortRunsBelow(n: nat, rest: seq<Byte>, k: nat)
    requires n + |rest| < k
    ensures RunsBelow(n, rest, k)
    decreases |rest|
  {
    if rest != [] {
      ShortRunsBelow(if rest[0] == 0 then 0 else n + 1, rest[1..], k);
    }
  }

  /** The size macro leaves no room for the empty input, whose encoding is a
      single code byte. */
  lemma EmptyInputOverflows()
    ensures |Encode([])| == 1 && |EncodeAsWritten([])| == 1
    ensures MaxEncSize(0) < |Encode([])|
  {
    assert Encode([]) == [1];
    assert EncodeAsWritten([]) == [1];
  }

  // --- the encoder over buffers ---

  /** The code byte of a block that is not over-long. */
  lemma CodeSmall(n: nat)
    requires n <= 254
    ensures Code(n) == n + 1
  {
  }

  /** Incrementing the `uint8_t` code byte. */
  lemma CodeNext(n: nat)
    ensures Code(n + 1) == (Code(n) + 1) % 256
  {
  }

  /** A zero byte closes the current block; `done` is the output already
      complete. */
  lemma AsWrittenZero(done: seq<Byte>, run: seq<Byte>, rest: seq<Byte>)
    requires rest != [] && rest[0] == 0
    ensures done + AsWritten(run, rest) == (done + [Code(|run|)] + run) + AsWritten([], rest[1..])
  {
    var x := AsWritten([], rest[1..]);
    assert AsWritten(run, rest) == [Code(|run|)] + run + x;
    assert done + ([Code(|run|)] + run + x) == (done + [Code(|run|)] + run) + x;
  }

  /** A non-zero byte joins the current run. */
  lemma AsWrittenGrow(done: seq<Byte>, run: seq<Byte>, rest: seq<Byte>)
    requires rest != [] && rest[0] != 0
    ensures done + AsWritten(run, rest) == done + AsWritten(run + [rest[0]], rest[1..])
  {
  }

  /** Closing a block on a zero byte in the standard encoder. */
  lemma BlocksZero(done: seq<Byte>, run: seq<Byte>, rest: seq<Byte>)
    requires rest != [] && rest[0] == 0
    ensures done + Blocks(run, rest) == (done + [Code(|run|)] + run) + Blocks([], rest[1..])
  {
    var x := Blocks([], rest[1..]);
    assert Blocks(run, rest) == [Code(|run|)] + run + x;
    assert done + ([Code(|run|)] + run + x) == (done + [Code(|run|)] + run) + x;
  }

  /** Closing a full block when more input follows. */
  lemma BlocksFull(done: seq<Byte>, run: seq<Byte>, rest: seq<Byte>)
    requires |rest| > 1 && rest[0] != 0 && |run| + 1 == 254
    ensures done + Blocks(run, rest) == (done + [0xFF] + (run + [rest[0]])) + Blocks([], rest[1..])
  {
    var x := Blocks([], rest[1..]);
    assert Blocks(run, rest) == [0xFF] + run + [rest[0]] + x;
    assert done + ([0xFF] + run + [rest[0]] + x) == (done + [0xFF] + (run + [rest[0]])) + x;
  }

  /** A non-zero byte that does not fill a block joins the current run. */
  lemma BlocksGrow(done: seq<Byte>, run: seq<Byte>, rest: seq<Byte>)
    requires rest != [] && rest[0] != 0 && !(|run| + 1 == 254 && |rest| > 1)
    ensures done + Blocks(run, rest) == done + Blocks(run + [rest[0]], rest[1..])
  {
  }

  /** The encoder's registers between two input bytes: `dst[0..code_idx)`
      holds the complete blocks `done`, `dst[code_idx]` waits for the code
      byte and the current run follows it up to `dst_idx`. */
  ghost predicate Registers(dst: array<Byte>, code: nat, codeIdx: nat, dstIdx: nat, done: seq<Byte>, run: seq<Byte>)
    reads dst
  {
    && codeIdx < dstIdx <= dst.Length && dstIdx == codeIdx + 1 + |run| && code == Code(|run|)
    && dst[..codeIdx] == done && dst[codeIdx + 1..dstIdx] == run
  }

  /** `cdst[code_idx] = code; code_idx = dst_idx++; code = 1U;`: closes the
      current block and opens the next one. */
  method CloseBlock(dst: array<Byte>, code: nat, codeIdx: nat, dstIdx: nat, ghost done: seq<Byte>, ghost run: seq<Byte>)
    returns (code': nat, codeIdx': nat, dstIdx': nat)
    requires Registers(dst, code, codeIdx, dstIdx, done, run) && dstIdx < dst.Length
    modifies dst
    ensures codeIdx' == dstIdx && dstIdx' == dstIdx + 1
    ensures Registers(dst, code', codeIdx', dstIdx', done + [Code(|run|)] + run, [])
    ensures forall i :: dstIdx' <= i < dst.Length ==> dst[i] == old(dst[i])
  {
    dst[codeIdx] := code;
    assert dst[..dstIdx] == done + [Code(|run|)] + run;
    return 1, dstIdx, dstIdx + 1;
  }

  /** `cdst[dst_idx++] = csrc[src_idx]; code++;`: copies a non-zero byte into the
      current run. */
  method CopyByte(dst: array<Byte>, b: Byte, code: nat, codeIdx: nat, dstIdx: nat, ghost done: seq<Byte>, ghost run: seq<Byte>)
    returns (code': nat, dstIdx': nat)
    requires Registers(dst, code, codeIdx, dstIdx, done, run) && dstIdx < dst.Length
    modifies dst
    ensures dstIdx' == dstIdx + 1
    ensures Registers(dst, code', codeIdx, dstIdx', done, run + [b])
    ensures forall i :: dstIdx' <= i < dst.Length ==> dst[i] == old(dst[i])
  {
    CodeNext(|run|);
    dst[dstIdx] := b;
    assert dst[codeIdx + 1..dstIdx + 1] == run + [b];
    return (code + 1) % 256, dstIdx + 1;
  }

  /** `cdst[code_idx] = code;` after the loop: writes the last code byte. */
  method CloseLast(dst: array<Byte>, code: nat, codeIdx: nat, dstIdx: nat, ghost done: seq<Byte>, ghost run: seq<Byte>)
    requires Registers(dst, code, codeIdx, dstIdx, done, run)
    modifies dst
    ensures dst[..dstIdx] == done + [Code(|run|)] + run
    ensures forall i :: dstIdx <= i < dst.Length ==> dst[i] == old(dst[i])
  {
    dst[codeIdx] := code;
    assert dst[..dstIdx] == done + [Code(|run|)] + run;
  }

  /** `pb_cobs_encode` as written: encodes `src[0..len)` into `dst` and
      returns the number of bytes written. */
  method EncodeToAsWritten(dst: array<Byte>, src: array<Byte>, len: nat) returns (n: nat)
    requires src != dst && len <= src.Length && len + 1 <= dst.Length
    modifies dst
    ensures n == len + 1
    ensures dst[..n] == EncodeAsWritten(src[..len])
    ensures forall i :: n <= i < dst.Length ==> dst[i] == old(dst[i])
  {
    var code: nat := 1;
    var codeIdx: nat := 0;
    var dstIdx: nat := 1;
    ghost var s := src[..len];
    ghost var done: seq<Byte> := [];
    ghost var run: seq<Byte> := [];
    for srcIdx := 0 to len
      invariant Registers(dst, code, codeIdx, dstIdx, done, run) && dstIdx == srcIdx + 1
      invariant done + AsWritten(run, s[srcIdx..]) == EncodeAsWritten(s)
      invariant forall i :: dstIdx <= i < dst.Length ==> dst[i] == old(dst[i])
    {
      ghost var rest := s[srcIdx..];
      assert rest[0] == src[srcIdx] && rest[1..] == s[srcIdx + 1..];
      if src[srcIdx] == 0 {
        AsWrittenZero(done, run, rest);
        code, codeIdx, dstIdx := CloseBlock(dst, code, codeIdx, dstIdx, done, run);
        done, run := done + [Code(|run|)] + run, [];
      } else {
        AsWrittenGrow(done, run, rest);
        code, dstIdx := CopyByte(dst, src[srcIdx], code, codeIdx, dstIdx, done, run);
        run := run + [src[srcIdx]];
        // The full-block split of lines 25-28 (its operands swapped, which
        // C's side-effect-free `&&` allows): its guard never holds here.
        if srcIdx > len - 1 && code == 0xFF {
          assert false;
        }
      }
    }
    CloseLast(dst, code, codeIdx, dstIdx, done, run);
    return dstIdx;
  }

  /** `pb_cobs_encode` with the full-block split taken when the code reaches
      0xFF and more input follows (`src_idx < len - 1`): encodes
      `src[0..len)` into `dst` and returns the number of bytes written. */
  method EncodeTo(dst: array<Byte>, src: array<Byte>, len: nat) returns (n: nat)
    requires src != dst && len <= src.Length && |Encode(src[..len])| <= dst.Length
    modifies dst
    ensures n == |Encode(src[..len])|
    ensures dst[..n] == Encode(src[..len])
    ensures forall i :: n <= i < dst.Length ==> dst[i] == old(dst[i])
  {
    var code: nat := 1;
    var codeIdx: nat := 0;
    var dstIdx: nat := 1;
    ghost var done: seq<Byte> := [];
    ghost var run: seq<Byte> := [];
    ghost var target := Encode(src[..len]);
    assert src[0..len] == src[..len];
    BlocksLonger([], src[..len]);
    for srcIdx := 0 to len
      invariant Registers(dst, code, codeIdx, dstIdx, done, run)
      invariant Open(run, src[srcIdx..len])
      invariant done + Blocks(run, src[srcIdx..len]) == target
      invariant forall i :: dstIdx <= i < dst.Length ==> dst[i] == old(dst[i])
    {
      ghost var rest := src[srcIdx..len];
      assert rest[0] == src[srcIdx] && rest[1..] == src[srcIdx + 1..len];
      BlocksLonger(run, rest);
      if src[srcIdx] == 0 {
        BlocksZero(done, run, rest);
        code, codeIdx, dstIdx := CloseBlock(dst, code, codeIdx, dstIdx, done, run);
        done, run := done + [Code(|run|)] + run, [];
      } else {
        ghost var full := |run| + 1 == 254 && |rest| > 1;
        if full {
          BlocksFull(done, run, rest);
        } else {
          BlocksGrow(done, run, rest);
        }
        CodeSmall(|run| + 1);
        code, dstIdx := CopyByte(dst, src[srcIdx], code, codeIdx, dstIdx, done, run);
        run := run + [src[srcIdx]];
        if code == 0xFF && srcIdx < len - 1 {
          assert full;
          code, codeIdx, dstIdx := CloseBlock(dst, code, codeIdx, dstIdx, done, run);
          done, run := done + [0xFF] + run, [];
        }
      }
    }
    assert src[len..len] == [];
    CloseLast(dst, code, codeIdx, dstIdx, done, run);
    return dstIdx;
  }
}

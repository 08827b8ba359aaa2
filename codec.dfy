/** The compact encoding of a juror's history: every transition index is a
    32-bit unsigned word, stored as its four little-endian bytes, and the
    words are concatenated (src/main.rs, `from_history` / `to_history`). */
module HistoryCodec {

  newtype byte = x: int | 0 <= x < 0x100
  newtype u32 = x: int | 0 <= x < 0x1_0000_0000

  /** The range of `u32`, the modulus of its wrap-around. */
  const U32_LIMIT: int := 0x1_0000_0000

  type Blob = seq<byte>
  type History = seq<u32>

  /** `u32::to_le_bytes`: least significant byte first. */
  function LeBytes(w: u32): (b: Blob)
    ensures |b| == 4
  {
    var x := w as int;
    [(x % 0x100) as byte, (x / 0x100 % 0x100) as byte,
     (x / 0x1_0000 % 0x100) as byte, (x / 0x100_0000) as byte]
  }

  /** `u32::from_le_bytes` on a chunk of exactly four bytes. */
  function FromLeBytes(b: Blob): u32
    requires |b| == 4
  {
    (b[0] as int + 0x100 * (b[1] as int) + 0x1_0000 * (b[2] as int)
     + 0x100_0000 * (b[3] as int)) as u32
  }

  lemma WordRoundTrip(w: u32)
    ensures FromLeBytes(LeBytes(w)) == w
  {
    var x := w as int;
    var b := LeBytes(w);
    assert b[0] as int + 0x100 * (b[1] as int) == x % 0x1_0000;
    assert x % 0x1_0000 + 0x1_0000 * (b[2] as int) == x % 0x100_0000;
  }

  /** The four bytes determine the word: `from_le_bytes` is injective. */
  lemma BytesRoundTrip(b: Blob)
    requires |b| == 4
    ensures LeBytes(FromLeBytes(b)) == b
  {
    var x := FromLeBytes(b) as int;
    assert x % 0x100 == b[0] as int;
    assert x / 0x100 == b[1] as int + 0x100 * (b[2] as int) + 0x1_0000 * (b[3] as int);
    assert x / 0x1_0000 == b[2] as int + 0x100 * (b[3] as int);
  }

  /** `from_history`: every word's little-endian bytes, in order. */
  function FromHistory(h: History): (b: Blob)
    ensures |b| == 4 * |h|
    ensures forall i :: 0 <= i < |h| ==> b[4 * i..4 * i + 4] == LeBytes(h[i])
  {
    if h == [] then []
    else
      var rest := FromHistory(h[1..]);
      var b := LeBytes(h[0]) + rest;
      assert forall i :: 1 <= i < |h| ==> b[4 * i..4 * i + 4] == rest[4 * (i - 1)..4 * (i - 1) + 4];
      b
  }

  /** `to_history`: `chunks_exact(4)` decoded as words; a tail of fewer than
      four bytes is dropped. */
  function ToHistory(b: Blob): (h: History)
    ensures |h| == |b| / 4
    ensures forall i :: 0 <= i < |h| ==> h[i] == FromLeBytes(b[4 * i..4 * i + 4])
  {
    if |b| < 4 then []
    else
      var rest := ToHistory(b[4..]);
      var h := [FromLeBytes(b[..4])] + rest;
      assert forall i :: 1 <= i < |h| ==> b[4 * i..4 * i + 4] == b[4..][4 * (i - 1)..4 * (i - 1) + 4];
      h
  }

  /** Decoding an encoded history gives it back. */
  lemma DecodeEncode(h: History)
    ensures ToHistory(FromHistory(h)) == h
  {
    var r := ToHistory(FromHistory(h));
    forall i | 0 <= i < |h|
      ensures r[i] == h[i]
    {
      WordRoundTrip(h[i]);
    }
  }

  /** A blob whose length is a multiple of four is the encoding of its
      decoding. */
  lemma {:induction false} EncodeDecode(b: Blob)
    requires |b| % 4 == 0
    ensures FromHistory(ToHistory(b)) == b
  {
    if |b| >= 4 {
      BytesRoundTrip(b[..4]);
      EncodeDecode(b[4..]);
      assert ToHistory(b)[1..] == ToHistory(b[4..]);
      assert b == b[..4] + b[4..];
    }
  }

  /** `chunks_exact` ignores up to three trailing bytes. */
  lemma {:induction false} TrailingBytesDropped(b: Blob, tail: Blob)
    requires |b| % 4 == 0 && |tail| < 4
    ensures ToHistory(b + tail) == ToHistory(b)
  {
    if |b| >= 4 {
      assert (b + tail)[4..] == b[4..] + tail;
      assert (b + tail)[..4] == b[..4];
      TrailingBytesDropped(b[4..], tail);
    }
  }
}

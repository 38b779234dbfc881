/** The arithmetic of 8192-byte segments: fs/segment.h and `readFileSize`. */
module Segments {
  import opened Octets

  const SEG_SIZE := 8192

  /** Segment numbers below this one have a byte offset that fits a signed 32-bit int. */
  const SEG_LIMIT := 262144

  /** `doff >> 13`: an arithmetic shift, hence a floor. */
  function SeekSegment(doff: int): int {
    doff / SEG_SIZE
  }

  /** `seg << 13` in 32 bits. */
  function SegmentToSize(seg: int): int {
    AsInt32(seg * SEG_SIZE)
  }

  /** The segment count that the server derives from the file size. */
  function TotalSegments(size: int): (n: int)
    ensures size >= 0 ==> n > 0
  {
    SeekSegment(size) + 1
  }

  /** `pread` of at most one segment from a regular file; a negative offset is an error. */
  function Pread(file: Bytes, offset: int): Option<Bytes> {
    if offset < 0 then None
    else if offset >= |file| then Some([])
    else Some(file[offset..Min(offset + SEG_SIZE, |file|)])
  }

  /** The bytes of segment `seg`, over unbounded integers. */
  function Slice(file: Bytes, seg: nat): Bytes {
    if seg * SEG_SIZE >= |file| then []
    else file[seg * SEG_SIZE..Min(seg * SEG_SIZE + SEG_SIZE, |file|)]
  }

  /** The first `n` segments laid end to end. */
  function Reassembled(file: Bytes, n: nat): Bytes {
    if n == 0 then [] else Reassembled(file, n - 1) + Slice(file, n - 1)
  }

  /** A shift of a non-negative segment number is exact just below the limit. */
  lemma ShiftExact(seg: nat)
    ensures SegmentToSize(seg) == seg * SEG_SIZE <==> seg < SEG_LIMIT
  {
  }

  /** Seeking and shifting back lands on the start of the segment that holds the offset,
      and no segment up to that one overflows. */
  lemma SeekRoundTrip(x: nat)
    requires x < INT32_LIMIT
    ensures SegmentToSize(SeekSegment(x)) <= x < SegmentToSize(SeekSegment(x)) + SEG_SIZE
    ensures forall seg: nat :: seg <= SeekSegment(x) ==> SegmentToSize(seg) == seg * SEG_SIZE
  {
  }

  lemma PreadIsSlice(file: Bytes, seg: nat)
    requires seg < SEG_LIMIT
    ensures Pread(file, SegmentToSize(seg)) == Some(Slice(file, seg))
  {
    ShiftExact(seg);
  }

  /** A segment is empty exactly from the size-aligned end of the file on, and full exactly
      while a whole segment of bytes remains. */
  lemma SliceSize(file: Bytes, seg: nat)
    ensures |Slice(file, seg)| == 0 <==> seg * SEG_SIZE >= |file|
    ensures |Slice(file, seg)| == SEG_SIZE <==> seg < SeekSegment(|file|)
    ensures |Slice(file, seg)| <= SEG_SIZE
  {
  }

  /** One read of the signing loop: it is short exactly at the last segment that the server counts. */
  lemma LoopRead(file: Bytes, seg: nat)
    requires |file| < INT32_LIMIT && seg <= SeekSegment(|file|)
    ensures Pread(file, SegmentToSize(seg)) == Some(Slice(file, seg))
    ensures |Slice(file, seg)| <= SEG_SIZE
    ensures |Slice(file, seg)| == SEG_SIZE <==> seg + 1 < TotalSegments(|file|)
    ensures |Slice(file, seg)| != SEG_SIZE <==> seg + 1 == TotalSegments(|file|)
  {
    PreadIsSlice(file, seg);
    SliceSize(file, seg);
  }

  lemma {:induction false} ReassembledPrefix(file: Bytes, n: nat)
    ensures Reassembled(file, n) == file[..Min(n * SEG_SIZE, |file|)]
  {
    if n != 0 {
      ReassembledPrefix(file, n - 1);
    }
  }

  /** The segments that the server counts are the whole file, no more and no less. */
  lemma SegmentsCoverFile(file: Bytes)
    ensures Reassembled(file, TotalSegments(|file|)) == file
    ensures forall seg: nat :: seg >= TotalSegments(|file|) ==> Slice(file, seg) == []
  {
    ReassembledPrefix(file, TotalSegments(|file|));
  }
}

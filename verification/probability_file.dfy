/**
 * The probability file read by `RetrieveCandidates`: an int32 count that must
 * equal the number of candidates, then that many 8-byte doubles. The doubles
 * are kept as opaque 64-bit words (their little-endian unsigned value).
 */
module ProbabilityFile {
  import opened Wrappers
  import opened Bytes

  datatype ProbabilityError =
    | ShortHeader     // fewer than four bytes: struct.unpack('i', ...) raises
    | CountMismatch   // the header count differs from the candidate count
    | ShortBody       // a read of 8 bytes came back short: struct.unpack('d', ...) raises

  /** The word stored at position i of the body. */
  function WordAt(bs: seq<byte>, i: nat): nat
    requires 4 + 8 * i + 8 <= |bs|
  {
    FromLE(bs[4 + 8 * i .. 4 + 8 * i + 8])
  }

  /** The words after the header, as the loop over range(count) reads them. */
  function Body(bs: seq<byte>, n: nat): (ws: seq<nat>)
    requires 4 + 8 * n <= |bs|
    ensures |ws| == n
    ensures forall i :: 0 <= i < n ==> ws[i] == WordAt(bs, i)
  {
    var body := bs[4 .. 4 + 8 * n];
    forall i | 0 <= i < n
      ensures UnpackU64s(body)[i] == WordAt(bs, i)
    {
      UnpackedAt(body, i);
      FieldOfBody(bs, n, i);
    }
    UnpackU64s(body)
  }

  lemma FieldOfBody(bs: seq<byte>, n: nat, i: nat)
    requires 4 + 8 * n <= |bs| && i < n
    ensures bs[4 .. 4 + 8 * n][8 * i .. 8 * i + 8] == bs[4 + 8 * i .. 4 + 8 * i + 8]
  {
    var a := 8 * i;
    assert a + 8 <= 8 * n;
    var body := bs[4 .. 4 + 8 * n];
    assert forall j :: a <= j < a + 8 ==> body[j] == bs[4 + j];
  }

  /**
   * Reads the probability file for `ncandidates` candidates. Bytes after the
   * last word are never read.
   */
  function Read(bs: seq<byte>, ncandidates: nat): (r: Result<seq<nat>, ProbabilityError>)
    ensures r.Success? <==> 4 <= |bs| && Int32Of(bs[..4]) == ncandidates && 4 + 8 * ncandidates <= |bs|
    ensures r == Failure(CountMismatch) <==> 4 <= |bs| && Int32Of(bs[..4]) != ncandidates
    ensures r.Success? ==> |r.value| == ncandidates
    ensures r.Success? ==> forall i :: 0 <= i < ncandidates ==> r.value[i] == WordAt(bs, i)
  {
    if |bs| < 4 then Failure(ShortHeader)
    else if Int32Of(bs[..4]) != ncandidates then Failure(CountMismatch)
    else if |bs| < 4 + 8 * ncandidates then Failure(ShortBody)
    else Success(Body(bs, ncandidates))
  }

  /** The file the classifier writes for the given words: the count, then the packed words. */
  function Write(ws: seq<nat>): (bs: seq<byte>)
    requires |ws| < TwoTo31
    requires forall i :: 0 <= i < |ws| ==> ws[i] < TwoTo64
    ensures |bs| == 4 + 8 * |ws|
  {
    Int32Bytes(|ws|) + PackU64s(ws)
  }

  /** The header of a written file, with anything after it, holds the word count. */
  lemma HeaderOfWrite(ws: seq<nat>, trailing: seq<byte>)
    requires |ws| < TwoTo31
    requires forall i :: 0 <= i < |ws| ==> ws[i] < TwoTo64
    ensures |Write(ws) + trailing| >= 4
    ensures Int32Of((Write(ws) + trailing)[..4]) == |ws|
  {
    assert (Write(ws) + trailing)[..4] == Int32Bytes(|ws|);
  }

  /**
   * Round trip: reading what the classifier wrote, with any trailing bytes,
   * for the same number of candidates gives back the words.
   */
  lemma ReadWrite(ws: seq<nat>, trailing: seq<byte>)
    requires |ws| < TwoTo31
    requires forall i :: 0 <= i < |ws| ==> ws[i] < TwoTo64
    ensures Read(Write(ws) + trailing, |ws|) == Success(ws)
  {
    var bs := Write(ws) + trailing;
    HeaderOfWrite(ws, trailing);
    assert bs[4 .. 4 + 8 * |ws|] == PackU64s(ws);
    UnpackPack(ws);
  }

  /** A header that disagrees with the candidate count is always refused. */
  lemma MismatchFails(ws: seq<nat>, ncandidates: nat)
    requires |ws| < TwoTo31
    requires forall i :: 0 <= i < |ws| ==> ws[i] < TwoTo64
    requires ncandidates != |ws|
    ensures Read(Write(ws), ncandidates) == Failure(CountMismatch)
  {
    HeaderOfWrite(ws, []);
    assert Write(ws) + [] == Write(ws);
  }
}

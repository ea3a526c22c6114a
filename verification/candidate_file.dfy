/**
 * The binary candidate file written by `SaveCandidates`: an int32 count
 * followed, per candidate, by six uint64 fields label_one, label_two, z, y,
 * x and ground_truth (0 or 1), all little-endian.
 */
module CandidateFile {
  import opened Wrappers
  import opened Bytes
  import opened Candidates

  const RecordSize: nat := 48

  datatype FileError =
    | CountOutOfRange   // struct.pack('i', ...) refuses the count
    | FieldOutOfRange   // struct.pack('Q', ...) refuses a field
    | Truncated         // fewer than four header bytes
    | NegativeCount
    | LengthMismatch    // the body is not count records long
    | BadFlag           // a ground-truth field other than 0 or 1

  /** Every field of the candidate fits the 'Q' format. */
  predicate Fits(c: Candidate)
  {
    && c.labelOne < TwoTo64 && c.labelTwo < TwoTo64
    && 0 <= c.location.z < TwoTo64
    && 0 <= c.location.y < TwoTo64
    && 0 <= c.location.x < TwoTo64
  }

  function FlagValue(b: bool): nat
  {
    if b then 1 else 0
  }

  /** The six 'Q' fields of a record, in file order. */
  function Fields(c: Candidate): (f: seq<nat>)
    requires Fits(c)
    ensures |f| == 6 && forall k :: 0 <= k < 6 ==> f[k] < TwoTo64
  {
    [c.labelOne, c.labelTwo, c.location.z as nat, c.location.y as nat, c.location.x as nat,
     FlagValue(c.groundTruth)]
  }

  /** The 48-byte record of one candidate. */
  function EncodeRecord(c: Candidate): (r: seq<byte>)
    requires Fits(c)
    ensures |r| == RecordSize
  {
    PackU64s(Fields(c))
  }

  /**
   * The record holds label_one, label_two, z, y, x and the flag, in that
   * order, each in its own 8-byte field.
   */
  lemma RecordFields(c: Candidate)
    requires Fits(c)
    ensures forall k :: 0 <= k < 6 ==> FromLE(EncodeRecord(c)[8 * k .. 8 * k + 8]) == Fields(c)[k]
  {
    forall k | 0 <= k < 6
      ensures FromLE(EncodeRecord(c)[8 * k .. 8 * k + 8]) == Fields(c)[k]
    {
      PackedAt(Fields(c), k);
    }
  }

  /** The records of a candidate sequence, back to back. */
  function EncodeRecords(cs: seq<Candidate>): (r: seq<byte>)
    requires forall i :: 0 <= i < |cs| ==> Fits(cs[i])
    ensures |r| == RecordSize * |cs|
  {
    if |cs| == 0 then [] else EncodeRecord(cs[0]) + EncodeRecords(cs[1..])
  }

  /** Record i of the body sits at byte offset 48 * i. */
  lemma {:induction false} RecordAt(cs: seq<Candidate>, i: nat)
    requires forall k :: 0 <= k < |cs| ==> Fits(cs[k])
    requires i < |cs|
    ensures EncodeRecords(cs)[RecordSize * i .. RecordSize * i + RecordSize] == EncodeRecord(cs[i])
  {
    var head, tail := EncodeRecord(cs[0]), EncodeRecords(cs[1..]);
    assert EncodeRecords(cs) == head + tail;
    if i > 0 {
      RecordAt(cs[1..], i - 1);
      assert RecordSize * i == |head| + RecordSize * (i - 1);
    }
  }

  /**
   * The whole file. The source raises when the count does not fit an int32
   * or a field does not fit a uint64.
   */
  function Encode(cs: seq<Candidate>): (r: Result<seq<byte>, FileError>)
    ensures r.Success? <==> |cs| < TwoTo31 && forall i :: 0 <= i < |cs| ==> Fits(cs[i])
    ensures r.Success? ==> |r.value| == 4 + RecordSize * |cs|
    ensures r.Success? ==> Int32Of(r.value[..4]) == |cs|
    ensures r.Success? ==> forall i :: 0 <= i < |cs| ==>
      r.value[4 + RecordSize * i .. 4 + RecordSize * i + RecordSize] == EncodeRecord(cs[i])
  {
    if |cs| >= TwoTo31 then Failure(CountOutOfRange)
    else if exists i :: 0 <= i < |cs| && !Fits(cs[i]) then Failure(FieldOutOfRange)
    else
      var header := Int32Bytes(|cs|);
      var body := EncodeRecords(cs);
      var r := header + body;
      assert r[..4] == header;
      assert forall i :: 0 <= i < |cs| ==>
        r[4 + RecordSize * i .. 4 + RecordSize * i + RecordSize] == EncodeRecord(cs[i]) by {
        forall i | 0 <= i < |cs|
          ensures r[4 + RecordSize * i .. 4 + RecordSize * i + RecordSize] == EncodeRecord(cs[i])
        {
          RecordAt(cs, i);
          assert r[4 + RecordSize * i .. 4 + RecordSize * i + RecordSize] == body[RecordSize * i .. RecordSize * i + RecordSize];
        }
      }
      Success(r)
  }

  /** Reads one 48-byte record; the flag must be 0 or 1. */
  function DecodeRecord(bs: seq<byte>): (r: Result<Candidate, FileError>)
    requires |bs| == RecordSize
    ensures r.Success? <==> UnpackU64s(bs)[5] <= 1
    ensures r.Success? ==> Fits(r.value) && Fields(r.value) == UnpackU64s(bs)
  {
    var f := UnpackU64s(bs);
    if f[5] > 1 then Failure(BadFlag)
    else Success(Candidate(f[0], f[1], Point(f[2], f[3], f[4]), f[5] == 1))
  }

  /** Reads `n` consecutive records. */
  function DecodeRecords(bs: seq<byte>, n: nat): (r: Result<seq<Candidate>, FileError>)
    requires |bs| == RecordSize * n
    ensures r.Success? ==> |r.value| == n
  {
    if n == 0 then Success([])
    else
      var c :- DecodeRecord(bs[..RecordSize]);
      var rest :- DecodeRecords(bs[RecordSize..], n - 1);
      Success([c] + rest)
  }

  /** Reads a whole candidate file. */
  function Decode(bs: seq<byte>): (r: Result<seq<Candidate>, FileError>)
    ensures r.Success? ==> 4 <= |bs| && |bs| == 4 + RecordSize * |r.value|
    ensures r.Success? ==> Int32Of(bs[..4]) == |r.value|
  {
    if |bs| < 4 then Failure(Truncated)
    else
      var n := Int32Of(bs[..4]);
      if n < 0 then Failure(NegativeCount)
      else if |bs| != 4 + RecordSize * n then Failure(LengthMismatch)
      else DecodeRecords(bs[4..], n)
  }

  lemma DecodeEncodeRecord(c: Candidate)
    requires Fits(c)
    ensures DecodeRecord(EncodeRecord(c)) == Success(c)
  {
    UnpackPack(Fields(c));
  }

  lemma {:induction false} DecodeEncodeRecords(cs: seq<Candidate>)
    requires forall i :: 0 <= i < |cs| ==> Fits(cs[i])
    ensures DecodeRecords(EncodeRecords(cs), |cs|) == Success(cs)
  {
    if |cs| > 0 {
      var bs := EncodeRecords(cs);
      assert bs[..RecordSize] == EncodeRecord(cs[0]);
      assert bs[RecordSize..] == EncodeRecords(cs[1..]);
      DecodeEncodeRecord(cs[0]);
      DecodeEncodeRecords(cs[1..]);
      assert [cs[0]] + cs[1..] == cs;
    }
  }

  /** Round trip: whatever `Encode` accepts, `Decode` gives back unchanged. */
  lemma RoundTrip(cs: seq<Candidate>)
    requires Encode(cs).Success?
    ensures Decode(Encode(cs).value) == Success(cs)
  {
    var bs := Encode(cs).value;
    assert bs[4..] == EncodeRecords(cs);
    DecodeEncodeRecords(cs);
  }

  lemma EncodeDecodeRecord(bs: seq<byte>)
    requires |bs| == RecordSize
    requires DecodeRecord(bs).Success?
    ensures EncodeRecord(DecodeRecord(bs).value) == bs
  {
    PackUnpack(bs);
  }

  lemma {:induction false} EncodeDecodeRecords(bs: seq<byte>, n: nat)
    requires |bs| == RecordSize * n
    requires DecodeRecords(bs, n).Success?
    ensures forall i :: 0 <= i < n ==> Fits(DecodeRecords(bs, n).value[i])
    ensures EncodeRecords(DecodeRecords(bs, n).value) == bs
  {
    if n > 0 {
      var cs := DecodeRecords(bs, n).value;
      var head, tail := bs[..RecordSize], bs[RecordSize..];
      var c := DecodeRecord(head).value;
      var rest := DecodeRecords(tail, n - 1).value;
      assert cs == [c] + rest;
      EncodeDecodeRecord(head);
      EncodeDecodeRecords(tail, n - 1);
      assert cs[1..] == rest;
      assert EncodeRecords(cs) == EncodeRecord(c) + EncodeRecords(rest);
      assert bs == head + tail;
    }
  }

  /** The converse round trip: a file `Decode` accepts is exactly what `Encode` writes. */
  lemma ReverseRoundTrip(bs: seq<byte>)
    requires Decode(bs).Success?
    ensures Encode(Decode(bs).value) == Success(bs)
  {
    var n := Int32Of(bs[..4]);
    EncodeDecodeRecords(bs[4..], n);
    Int32BytesOfField(bs[..4]);
    assert bs == bs[..4] + bs[4..];
  }
}

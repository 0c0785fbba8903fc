/**
 * The bounded chunked read of the upload inside remove_background (main.py).
 *
 * The upload is the sequence of chunks that successive file.read(chunk_size)
 * calls return; reading past the end of that sequence returns the empty
 * chunk, and the first empty chunk ends the stream.
 */
module UploadReader {

  newtype byte = x: int | 0 <= x < 256

  /** MAX_FILE_SIZE, 10 MiB. */
  const MaxFileSize: int := 10 * 1024 * 1024

  /** chunk_size, 1 MiB: the most bytes one read returns. */
  const ChunkSize: int := 1024 * 1024

  /**
   * Complete: the loop met the empty chunk and left with `contents`.
   * PayloadTooLarge: the loop raised 413 after reading `chunksRead` chunks,
   * holding `buffered`.
   */
  datatype ReadOutcome =
    | Complete(contents: seq<byte>)
    | PayloadTooLarge(buffered: seq<byte>, chunksRead: nat)

  /** The chunks joined in order. */
  function Concat(chunks: seq<seq<byte>>): seq<byte>
  {
    if chunks == [] then [] else Concat(chunks[..|chunks| - 1]) + chunks[|chunks| - 1]
  }

  /** The index of the first empty chunk, where the stream ends. */
  function EndOfStream(chunks: seq<seq<byte>>): (k: nat)
    ensures k <= |chunks|
    ensures forall i :: 0 <= i < k ==> chunks[i] != []
    ensures k < |chunks| ==> chunks[k] == []
  {
    if chunks == [] || chunks[0] == [] then 0 else 1 + EndOfStream(chunks[1..])
  }

  /** The chunks that make up the upload: those before the first empty one. */
  function Stream(chunks: seq<seq<byte>>): seq<seq<byte>>
  {
    chunks[..EndOfStream(chunks)]
  }

  lemma ConcatStep(s: seq<seq<byte>>, i: nat)
    requires i < |s|
    ensures Concat(s[..i + 1]) == Concat(s[..i]) + s[i]
  {
    assert s[..i + 1][..i] == s[..i];
  }

  /** A longer prefix never holds fewer bytes. */
  lemma {:induction false} ConcatPrefixGrows(s: seq<seq<byte>>, i: nat, j: nat)
    requires i <= j <= |s|
    ensures |Concat(s[..i])| <= |Concat(s[..j])|
  {
    if i < j {
      ConcatPrefixGrows(s, i, j - 1);
      ConcatStep(s, j - 1);
    }
  }

  /** The number of chunks after which the running total first exceeds MaxFileSize. */
  function FirstOverflow(s: seq<seq<byte>>): (n: nat)
    requires |Concat(s)| > MaxFileSize
    ensures 0 < n <= |s|
    ensures |Concat(s[..n])| > MaxFileSize
    ensures |Concat(s[..n - 1])| <= MaxFileSize
  {
    var p := s[..|s| - 1];
    if |Concat(p)| > MaxFileSize then
      var n := FirstOverflow(p);
      assert p[..n] == s[..n] && p[..n - 1] == s[..n - 1];
      n
    else
      assert s[..|s|] == s;
      |s|
  }

  /** The outcome of the read loop, stated over the whole upload. */
  function BoundedRead(chunks: seq<seq<byte>>): ReadOutcome
  {
    var s := Stream(chunks);
    if |Concat(s)| <= MaxFileSize then Complete(Concat(s))
    else
      var n := FirstOverflow(s);
      PayloadTooLarge(Concat(s[..n]), n)
  }

  /** The first prefix to exceed the limit is unique. */
  lemma OverflowIsFirst(s: seq<seq<byte>>, n: nat)
    requires 0 < n <= |s|
    requires |Concat(s[..n])| > MaxFileSize && |Concat(s[..n - 1])| <= MaxFileSize
    ensures |Concat(s)| > MaxFileSize
    ensures FirstOverflow(s) == n
  {
    assert s[..|s|] == s;
    ConcatPrefixGrows(s, n, |s|);
    var m := FirstOverflow(s);
    if m < n {
      ConcatPrefixGrows(s, m, n - 1);
    } else if m > n {
      ConcatPrefixGrows(s, n, m - 1);
    }
  }

  /**
   * The read succeeds exactly when the upload holds at most MaxFileSize bytes,
   * and then returns all of them; otherwise it stops at the first chunk that
   * takes the total over the limit, reads nothing after it, and holds at most
   * that one chunk more than the limit.
   */
  lemma BoundedReadSpec(chunks: seq<seq<byte>>)
    ensures var r := BoundedRead(chunks);
            && (r.Complete? <==> |Concat(Stream(chunks))| <= MaxFileSize)
            && (r.Complete? ==> r.contents == Concat(Stream(chunks)))
            && (r.PayloadTooLarge? ==>
                  && 0 < r.chunksRead <= EndOfStream(chunks)
                  && r.buffered == Concat(chunks[..r.chunksRead])
                  && MaxFileSize < |r.buffered| <= MaxFileSize + |chunks[r.chunksRead - 1]|
                  && forall m :: 0 <= m < r.chunksRead ==> |Concat(chunks[..m])| <= MaxFileSize)
  {
    var r := BoundedRead(chunks);
    if r.PayloadTooLarge? {
      var s, n := Stream(chunks), r.chunksRead;
      assert s[..n] == chunks[..n] && s[..n - 1] == chunks[..n - 1];
      ConcatStep(chunks, n - 1);
      forall m | 0 <= m < n
        ensures |Concat(chunks[..m])| <= MaxFileSize
      {
        ConcatPrefixGrows(chunks, m, n - 1);
      }
    }
  }

  /** When no read returns more than ChunkSize bytes, an aborted read holds at most MaxFileSize + ChunkSize bytes. */
  lemma AbortedReadBound(chunks: seq<seq<byte>>)
    requires forall i :: 0 <= i < |chunks| ==> |chunks[i]| <= ChunkSize
    ensures BoundedRead(chunks).PayloadTooLarge? ==> |BoundedRead(chunks).buffered| <= MaxFileSize + ChunkSize
  {
    BoundedReadSpec(chunks);
  }

  /** The `while True` loop of lines 128-145, with its running file_size and its contents buffer. */
  method ReadUpload(chunks: seq<seq<byte>>) returns (r: ReadOutcome)
    ensures r == BoundedRead(chunks)
  {
    var fileSize := 0;
    var contents: seq<byte> := [];
    var i := 0;
    while true
      invariant 0 <= i <= EndOfStream(chunks)
      invariant contents == Concat(chunks[..i])
      invariant fileSize == |contents|
      invariant fileSize <= MaxFileSize
      decreases |chunks| - i
    {
      var chunk := if i < |chunks| then chunks[i] else [];
      if chunk == [] {
        break;
      }
      ConcatStep(chunks, i);
      i := i + 1;
      fileSize := fileSize + |chunk|;
      contents := contents + chunk;
      if fileSize > MaxFileSize {
        var s := Stream(chunks);
        assert s[..i] == chunks[..i] && s[..i - 1] == chunks[..i - 1];
        OverflowIsFirst(s, i);
        return PayloadTooLarge(contents, i);
      }
    }
    assert Stream(chunks) == chunks[..i];
    return Complete(contents);
  }
}

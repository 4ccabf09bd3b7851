/**
 * The read loops of the uploads: a reader is the sequence of what its
 * successive reads return, each a non-empty piece of at most BUFFER_SIZE
 * bytes, the end of input being the read that returns nothing.
 */
module Reading {
  import opened Functions

  /** What a reader's reads into a BUFFER_SIZE buffer can return. */
  predicate WellFormedReads(pieces: seq<seq<byte>>) {
    forall i :: 0 <= i < |pieces| ==> 0 < |pieces[i]| <= BUFFER_SIZE
  }

  /**
   * The look-ahead loop of the reader uploads: buffers reads into `temp`
   * until the input ends or `temp` reaches the threshold. `sizeStart` is
   * where the running file size starts.
   */
  method Lookahead(pieces: seq<seq<byte>>, threshold: int, sizeStart: nat)
    returns (temp: seq<byte>, consumed: nat, gridfs: bool, fileSize: nat)
    requires WellFormedReads(pieces)
    requires threshold > 0
    ensures consumed <= |pieces|
    ensures temp == Concat(pieces[..consumed])
    ensures fileSize == sizeStart + |temp|
    ensures gridfs <==> |temp| >= threshold
    ensures gridfs <==> |Concat(pieces)| >= threshold
    ensures !gridfs ==> consumed == |pieces|
    ensures gridfs ==> 0 < consumed && |Concat(pieces[..consumed - 1])| < threshold
    ensures gridfs ==> |temp| < threshold + BUFFER_SIZE
  {
    temp := [];
    consumed := 0;
    gridfs := false;
    fileSize := sizeStart;
    while consumed < |pieces|
      invariant consumed <= |pieces|
      invariant temp == Concat(pieces[..consumed])
      invariant fileSize == sizeStart + |temp|
      invariant |temp| < threshold
    {
      var buf := pieces[consumed];
      assert pieces[..consumed + 1][..consumed] == pieces[..consumed];
      temp := temp + buf;
      fileSize := fileSize + |buf|;
      consumed := consumed + 1;
      if |temp| >= threshold {
        gridfs := true;
        break;
      }
    }
    if gridfs {
      ConcatPrefixLength(pieces, consumed);
      assert pieces[..consumed][..consumed - 1] == pieces[..consumed - 1];
    } else {
      assert pieces[..consumed] == pieces;
    }
  }

  /** The tail loop: every remaining read is appended to `stored` and counted. */
  method Drain(pieces: seq<seq<byte>>, from: nat, stored: seq<byte>, fileSize: nat)
    returns (stored': seq<byte>, fileSize': nat)
    requires from <= |pieces|
    ensures stored' == stored + Concat(pieces[from..])
    ensures fileSize' == fileSize + |Concat(pieces[from..])|
  {
    stored' := stored;
    fileSize' := fileSize;
    var i := from;
    assert pieces[from..from] == [];
    while i < |pieces|
      invariant from <= i <= |pieces|
      invariant stored' == stored + Concat(pieces[from..i])
      invariant fileSize' == fileSize + |Concat(pieces[from..i])|
    {
      assert pieces[from..i + 1][..i - from] == pieces[from..i];
      stored' := stored' + pieces[i];
      fileSize' := fileSize' + |pieces[i]|;
      i := i + 1;
    }
    assert pieces[from..i] == pieces[from..];
  }

  /** What the look-ahead buffered followed by the tail is the whole input, in order. */
  lemma LookaheadThenDrain(pieces: seq<seq<byte>>, consumed: nat)
    requires consumed <= |pieces|
    ensures Concat(pieces[..consumed]) + Concat(pieces[consumed..]) == Concat(pieces)
  {
    assert pieces == pieces[..consumed] + pieces[consumed..];
    ConcatAppend(pieces[..consumed], pieces[consumed..]);
  }

  /**
   * Both loops of a reader upload: the look-ahead, then, once the threshold
   * is reached, the tail. Yields every byte read, in order, whether the
   * threshold was reached, and the running size.
   */
  method ReadInput(pieces: seq<seq<byte>>, threshold: int, sizeStart: nat)
    returns (bytes: seq<byte>, gridfs: bool, fileSize: nat)
    requires WellFormedReads(pieces)
    requires threshold > 0
    ensures bytes == Concat(pieces)
    ensures gridfs <==> |bytes| >= threshold
    ensures fileSize == sizeStart + |bytes|
  {
    var consumed;
    bytes, consumed, gridfs, fileSize := Lookahead(pieces, threshold, sizeStart);
    if !gridfs {
      assert pieces[..consumed] == pieces;
    } else {
      LookaheadThenDrain(pieces, consumed);
      bytes, fileSize := Drain(pieces, consumed, bytes, fileSize);
    }
  }

  /** The copy of a local file into a GridFS file, through the buffer. */
  method CopyFile(contents: seq<byte>) returns (written: seq<byte>)
    ensures written == contents
  {
    written := [];
    while |written| < |contents|
      invariant |written| <= |contents|
      invariant written == contents[..|written|]
      decreases |contents| - |written|
    {
      var pos := |written|;
      var c := if |contents| - pos < BUFFER_SIZE then |contents| - pos else BUFFER_SIZE;
      assert contents[..pos] + contents[pos..pos + c] == contents[..pos + c];
      written := written + contents[pos..pos + c];
    }
    assert contents[..|written|] == contents;
  }
}

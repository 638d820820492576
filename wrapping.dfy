/** Hard wrapping of a report line into chunks of the terminal width. */
module Wrapping {

  /** The chunks written one after the other. */
  function Concat(chunks: seq<string>): string
  {
    if chunks == [] then [] else Concat(chunks[..|chunks| - 1]) + chunks[|chunks| - 1]
  }

  /** How many chunks a line of n characters is cut into: one, plus one per
      full width it exceeds the width by. */
  function ChunkCount(n: nat, width: nat): (c: nat)
    requires width > 0
    ensures c >= 1
    decreases n
  {
    if n <= width then 1 else 1 + ChunkCount(n - width, width)
  }

  /** The length of the last chunk of a line of n characters. */
  function LastLength(n: nat, width: nat): (l: nat)
    requires width > 0
    ensures l <= width && l <= n
    ensures l == 0 <==> n == 0
    decreases n
  {
    if n <= width then n else LastLength(n - width, width)
  }

  /** A line of length 3 * width + 5 wraps into 4 chunks, the last of length
      5, when width >= 5. */
  lemma WrapExample(width: nat)
    requires width >= 5
    ensures ChunkCount(3 * width + 5, width) == 4
    ensures LastLength(3 * width + 5, width) == 5
  {
    assert ChunkCount(width + 5, width) == 1 + ChunkCount(5, width) == 2;
    assert ChunkCount(2 * width + 5, width) == 1 + ChunkCount(width + 5, width);
    assert LastLength(width + 5, width) == LastLength(5, width) == 5;
    assert LastLength(2 * width + 5, width) == LastLength(width + 5, width);
  }

  /** The wrap loop: while the line is longer than the width, write its first
      `width` characters and keep the rest; then write what remains. The
      chunks concatenate back to the line, all but the last have exactly the
      width, and the last has at most the width and is empty only when the
      line is (LastLength). */
  method Wrap(line: string, width: int) returns (chunks: seq<string>)
    requires width > 0
    ensures Concat(chunks) == line
    ensures |chunks| == ChunkCount(|line|, width)
    ensures forall i :: 0 <= i < |chunks| - 1 ==> |chunks[i]| == width
    ensures |chunks[|chunks| - 1]| == LastLength(|line|, width)
  {
    var rest := line;
    chunks := [];
    if |rest| >= width {
      while |rest| > width
        invariant Concat(chunks) + rest == line
        invariant forall i :: 0 <= i < |chunks| ==> |chunks[i]| == width
        invariant |chunks| + ChunkCount(|rest|, width) == ChunkCount(|line|, width)
        invariant LastLength(|rest|, width) == LastLength(|line|, width)
        invariant rest != []
        decreases |rest|
      {
        chunks := chunks + [rest[..width]];
        rest := rest[width..];
      }
    }
    assert Concat(chunks + [rest]) == Concat(chunks) + rest by {
      assert (chunks + [rest])[..|chunks|] == chunks;
    }
    chunks := chunks + [rest];
  }
}

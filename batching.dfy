/**
 * The `for (let i = 0; i < n; i += size) batch = xs.slice(i, i + size)` pattern
 * both repositories use to split a write into statements.
 */
module Batching {

  function Flatten<T>(chunks: seq<seq<T>>): (flat: seq<T>) {
    if chunks == [] then [] else chunks[0] + Flatten(chunks[1..])
  }

  /** The consecutive slices of at most `size` elements that the loop visits. */
  function Chunks<T>(s: seq<T>, size: nat): (chunks: seq<seq<T>>)
    requires size > 0
    ensures forall k | 0 <= k < |chunks| :: 0 < |chunks[k]| <= size
    ensures forall k | 0 <= k < |chunks| - 1 :: |chunks[k]| == size
    ensures Flatten(chunks) == s
    ensures s == [] <==> chunks == []
    decreases |s|
  {
    if s == [] then []
    else if |s| <= size then [s]
    else
      var rest := Chunks(s[size..], size);
      assert ([s[..size]] + rest)[1..] == rest;
      assert s == s[..size] + s[size..];
      [s[..size]] + rest
  }

  /** The chunk starting at position `i` is `s[i..min(i + size, |s|)]`; the loop's step. */
  lemma ChunksStep<T>(s: seq<T>, i: nat, size: nat)
    requires size > 0 && i < |s|
    ensures var end := if i + size <= |s| then i + size else |s|;
            Chunks(s[i..], size) == [s[i..end]] + Chunks(s[end..], size)
  {
    var end := if i + size <= |s| then i + size else |s|;
    if |s[i..]| > size {
      assert s[i..][size..] == s[end..];
      assert s[i..][..size] == s[i..end];
    } else {
      assert s[end..] == [];
      assert s[i..] == s[i..end];
    }
  }

  /** The chunk lengths add up to the input length. */
  lemma {:induction false} FlattenLength<T>(chunks: seq<seq<T>>)
    ensures |Flatten(chunks)| == SumLengths(chunks)
  {
    if chunks != [] {
      FlattenLength(chunks[1..]);
    }
  }

  function SumLengths<T>(chunks: seq<seq<T>>): nat {
    if chunks == [] then 0 else |chunks[0]| + SumLengths(chunks[1..])
  }

  /** Taking the slice `i..end` off the remaining input moves it to the chunks already taken. */
  lemma ChunksAdvance<T>(s: seq<T>, done: seq<seq<T>>, i: nat, end: nat, size: nat)
    requires size > 0 && i < |s|
    requires end == if i + size <= |s| then i + size else |s|
    requires Chunks(s, size) == done + Chunks(s[i..], size)
    ensures Chunks(s, size) == (done + [s[i..end]]) + Chunks(s[end..], size)
  {
    ChunksStep(s, i, size);
  }
}

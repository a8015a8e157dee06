/** The rows of the Conversations table, in chunks (src/conversations.h, src/conversations.cpp). */
module ConversationRows {

  function Flat<T>(chunks: seq<seq<T>>): seq<T> {
    if chunks == [] then [] else Flat(chunks[..|chunks| - 1]) + chunks[|chunks| - 1]
  }

  lemma {:induction false} FlatSplits<T>(a: seq<seq<T>>, b: seq<seq<T>>)
    ensures Flat(a + b) == Flat(a) + Flat(b)
  {
    if b == [] {
      assert a + b == a;
    } else {
      FlatSplits(a, b[..|b| - 1]);
      assert (a + b)[..|a + b| - 1] == a + b[..|b| - 1];
    }
  }

  class ConversationRows<T(0)> {
    const chunks: seq<seq<T>>
    /** The first row of each chunk. */
    const starts: seq<nat>
    const size: nat

    ghost predicate Valid() {
      && |starts| == |chunks| && size == |Flat(chunks)|
      && forall c :: 0 <= c < |chunks| ==> starts[c] == |Flat(chunks[..c])|
    }

    constructor (chunks: seq<seq<T>>)
      ensures Valid() && this.chunks == chunks
    {
      var begins: seq<nat>, rows: nat := [], 0;
      for c := 0 to |chunks|
        invariant |begins| == c && rows == |Flat(chunks[..c])|
        invariant forall i :: 0 <= i < c ==> begins[i] == |Flat(chunks[..i])|
      {
        begins := begins + [rows];
        assert chunks[..c + 1][..c] == chunks[..c];
        rows := rows + |chunks[c]|;
      }
      assert chunks[..|chunks|] == chunks;
      this.chunks, starts, size := chunks, begins, rows;
    }

    /** Row `i`: of the last chunk that starts at or before it, whichever chunks are empty. */
    method At(i: nat) returns (row: T)
      requires Valid() && i < size
      ensures row == Flat(chunks)[i]
    {
      StartsGrow();
      var low, high := 0, |starts|;
      while low < high
        invariant low <= high <= |starts|
        invariant forall c :: 0 <= c < low ==> starts[c] <= i
        invariant forall c :: high <= c < |starts| ==> starts[c] > i
      {
        var middle := (low + high) / 2;
        if starts[middle] <= i {
          low := middle + 1;
        } else {
          high := middle;
        }
      }
      InChunk(i, low);
      return chunks[low - 1][i - starts[low - 1]];
    }

    lemma StartsGrow()
      requires Valid()
      ensures forall b, c :: 0 <= b <= c < |starts| ==> starts[b] <= starts[c]
    {
      forall b, c | 0 <= b <= c < |starts|
        ensures starts[b] <= starts[c]
      {
        FlatSplits(chunks[..b], chunks[b..c]);
        assert chunks[..c] == chunks[..b] + chunks[b..c];
      }
    }

    lemma InChunk(i: nat, next: nat)
      requires Valid() && i < size && next <= |chunks|
      requires forall c :: 0 <= c < next ==> starts[c] <= i
      requires forall c :: next <= c < |starts| ==> starts[c] > i
      ensures next > 0 && i - starts[next - 1] < |chunks[next - 1]|
      ensures chunks[next - 1][i - starts[next - 1]] == Flat(chunks)[i]
    {
      assert chunks[..0] == [];
      var c := next - 1;
      assert chunks[..next][..c] == chunks[..c];
      assert chunks == chunks[..next] + chunks[next..];
      FlatSplits(chunks[..next], chunks[next..]);
      assert Flat(chunks[..next]) == Flat(chunks[..c]) + chunks[c];
      assert next == |chunks| ==> chunks[..next] == chunks;
    }

    /** Every row, copied. */
    method List() returns (rows: seq<T>)
      requires Valid()
      ensures rows == Flat(chunks)
    {
      rows := [];
      for c := 0 to |chunks|
        invariant rows == Flat(chunks[..c])
      {
        assert chunks[..c + 1][..c] == chunks[..c];
        rows := rows + chunks[c];
      }
      assert chunks[..|chunks|] == chunks;
    }
  }
}

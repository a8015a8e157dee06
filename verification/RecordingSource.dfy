/** Keeping a copy of what a capture's reader reads, so that a record can be copied (src/capture_index.cpp). */
module RecordingSource {
  import opened Bits
  import opened Bytes

  const Wrap: nat := 0x1_0000_0000_0000_0000
  const MaxKeptRecord: nat := 16 * 1024 * 1024

  /** A source of bytes that gives at most `burst` of them at a time. */
  class ByteSource {
    const stream: seq<bv8>
    const burst: nat
    var at: nat

    ghost predicate Valid()
      reads this
    {
      at <= |stream| < Wrap && burst > 0
    }

    constructor (stream: seq<bv8>, burst: nat)
      requires |stream| < Wrap && burst > 0
      ensures Valid() && this.stream == stream && this.burst == burst && at == 0
    {
      this.stream, this.burst, at := stream, burst, 0;
    }

    method Read(n: nat) returns (bytes: seq<bv8>)
      requires Valid()
      modifies this
      ensures Valid() && |bytes| <= n && at == old(at) + |bytes| && bytes == stream[old(at)..at]
      ensures bytes == [] ==> n == 0 || at == |stream|
    {
      var got := Min(Min(n, burst), |stream| - at);
      bytes := stream[at..at + got];
      at := at + got;
    }

    /** A source that ends first is left at its end. */
    method Skip(n: nat) returns (skipped: bool)
      requires Valid()
      modifies this
      ensures Valid() && (skipped <==> old(at) + n <= |stream|)
      ensures at == if skipped then old(at) + n else |stream|
    {
      skipped := n <= |stream| - at;
      at := if skipped then at + n else |stream|;
    }

    method Seek(offset: nat) returns (sought: bool)
      requires Valid()
      modifies this
      ensures Valid() && (sought <==> offset <= |stream|) && at == if sought then offset else old(at)
    {
      sought := offset <= |stream|;
      if sought {
        at := offset;
      }
    }
  }

  /** Where the bytes asked for lie among those kept. */
  datatype View = NoView | View(at: nat, length: nat)

  /** The place of `length` bytes from `offset` on, the sum as 64-bit arithmetic makes it. */
  function ViewOf(start: nat, kept: nat, offset: nat, length: nat): View {
    if offset < start || (offset - start + length) % Wrap > kept then NoView
    else View(offset - start, length)
  }

  /** A view shows the bytes asked for, all of them kept. */
  ghost predicate Shows(view: View, stream: seq<bv8>, kept: seq<bv8>, offset: nat, length: nat) {
    view.View? ==>
      && view.at + view.length <= |kept| && offset + length <= |stream|
      && kept[view.at..view.at + view.length] == stream[offset..offset + length]
  }

  class RecordingSource {
    const inner: ByteSource
    const keeping: bool
    var position: nat
    var start: nat
    var kept: seq<bv8>

    /** What is kept is the stream from `start` to `position`, within the limit. The inner source is at
      * `position`, or at its end if skipping failed. */
    ghost predicate Valid()
      reads this, inner
    {
      && inner.Valid() && position <= |inner.stream| && inner.at in {position, |inner.stream|}
      && |kept| <= MaxKeptRecord
      && if keeping then start <= position && kept == inner.stream[start..position] else kept == []
    }

    constructor (inner: ByteSource, keeping: bool)
      requires inner.Valid() && inner.at == 0
      ensures Valid() && this.inner == inner && this.keeping == keeping && position == start == 0
    {
      this.inner, this.keeping := inner, keeping;
      position, start, kept := 0, 0, [];
    }

    /** Pass bytes on, and keep them, unless that is too much to keep. */
    method Read(n: nat) returns (bytes: seq<bv8>)
      requires Valid()
      modifies this`position, this`start, this`kept, inner
      ensures Valid() && |bytes| <= n
      ensures position == old(position) + |bytes| && bytes == inner.stream[old(position)..position]
      ensures inner.at == old(inner.at) + |bytes| && (bytes == [] ==> n == 0 || inner.at == |inner.stream|)
      ensures keeping ==>
                if old(|kept|) + |bytes| > MaxKeptRecord then start == position && kept == []
                else start == old(start) && kept == old(kept) + bytes
    {
      bytes := inner.Read(n);
      if keeping {
        if |kept| + |bytes| > MaxKeptRecord {
          kept := []; // too long to keep: copied from the file
          start := position + |bytes|;
        } else {
          kept := kept + bytes;
        }
      }
      position := position + |bytes|;
    }

    /** Skip by reading, so that the bytes are kept. */
    method SkipByReading(n: nat) returns (skipped: bool)
      requires Valid()
      modifies this`position, this`start, this`kept, inner
      ensures Valid() && (skipped <==> old(inner.at) + n <= |inner.stream|)
      ensures position == if skipped then old(position) + n else if old(inner.at) == old(position) then |inner.stream| else old(position)
      ensures keeping && old(|kept|) + n <= MaxKeptRecord ==> start == old(start)
    {
      var rest := n;
      while rest > 0
        invariant Valid() && 0 <= rest <= n && position == old(position) + (n - rest)
        invariant inner.at == old(inner.at) + (n - rest)
        invariant keeping && old(|kept|) + n <= MaxKeptRecord ==> start == old(start) && |kept| == old(|kept|) + (n - rest)
      {
        var bytes := Read(Min(rest, 4096));
        if bytes == [] {
          return false;
        }
        rest := rest - |bytes|;
      }
      return true;
    }

    /** Skip bytes, if there are as many: few enough are kept as if they had been read, more are let go of. */
    method Skip(n: nat) returns (skipped: bool)
      requires Valid()
      modifies this`position, this`start, this`kept, inner
      ensures Valid() && (skipped <==> old(inner.at) + n <= |inner.stream|)
      ensures skipped ==> position == old(position) + n
      ensures !skipped ==> position == if keeping && n <= MaxKeptRecord && old(inner.at) == old(position) then |inner.stream| else old(position)
      ensures keeping && old(|kept|) + n <= MaxKeptRecord ==> start == old(start)
      ensures n > MaxKeptRecord && skipped ==> start == position && kept == []
    {
      if keeping && n <= MaxKeptRecord {
        skipped := SkipByReading(n);
        return;
      }
      var sought := inner.Skip(n);
      if !sought {
        return false;
      }
      kept := [];
      position := position + n;
      start := position;
      return true;
    }

    method Seek(offset: nat) returns (sought: bool)
      requires Valid()
      modifies this`position, this`start, this`kept, inner
      ensures Valid() && (sought <==> offset <= |inner.stream|)
      ensures if sought then position == start == offset && kept == []
              else position == old(position) && start == old(start) && kept == old(kept)
    {
      sought := inner.Seek(offset);
      if sought {
        kept, position, start := [], offset, offset;
      }
    }

    /** Let go of what was kept before `offset`. What is kept is still the stream's, up to `position`,
      * if and only if `offset` is not past it. */
    method TrimTo(offset: nat)
      requires Valid()
      modifies this`start, this`kept
      ensures Valid() <==> !keeping || offset <= position
      ensures keeping && start <= position ==> start == if offset > old(start) then offset else old(start)
    {
      if offset <= start {
        return;
      }
      var drop := Min(offset - start, |kept|);
      kept := kept[drop..];
      start := offset;
    }

    /** The bytes kept from `offset` on, `length` of them. */
    method Bytes(offset: nat, length: nat) returns (view: View)
      requires Valid() && offset < Wrap && length < Wrap
      ensures view == ViewOf(start, |kept|, offset, length)
      ensures keeping && offset - start + length < Wrap ==> Shows(view, inner.stream, kept, offset, length)
      ensures keeping && start <= offset && offset + length <= position ==> view.View?
    {
      if offset < start || (offset - start + length) % Wrap > |kept| {
        return NoView;
      }
      if keeping && offset - start + length < Wrap {
        SliceOfSlice(inner.stream, start, position, offset - start, offset - start + length);
      }
      return View(offset - start, length);
    }
  }

  // ── When the bytes shown are those asked for ──

  /** What was kept, as Valid says. */
  ghost predicate Keeps(stream: seq<bv8>, start: nat, position: nat, kept: seq<bv8>) {
    start <= position <= |stream| < Wrap && kept == stream[start..position]
  }

  /** The bytes shown are those asked for if and only if the sum did not wrap around, or wrapped to
    * more than was kept: nothing kept, any offset past the start and a length that wraps to 0 fail. */
  lemma ShowsExactly(stream: seq<bv8>, start: nat, position: nat, kept: seq<bv8>, offset: nat, length: nat)
    requires Keeps(stream, start, position, kept) && offset < Wrap && length < Wrap
    ensures Shows(ViewOf(start, |kept|, offset, length), stream, kept, offset, length) <==>
            offset < start || offset - start + length < Wrap || (offset - start + length) % Wrap > |kept|
  {
    var sum := offset - start + length;
    if offset >= start && sum < Wrap && sum <= |kept| {
      SliceOfSlice(stream, start, position, offset - start, sum);
    }
  }

  /** A length that wraps around shows bytes that were never kept. */
  lemma WrappedLength()
    ensures Keeps([], 0, 0, []) && ViewOf(0, 0, 1, Wrap - 1) == View(1, Wrap - 1)
    ensures !Shows(ViewOf(0, 0, 1, Wrap - 1), [], [], 1, Wrap - 1)
  {
  }
}

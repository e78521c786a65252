/**
 * Where encoders put their output (asn_application.c): a buffer that grows by doubling and always has room for a
 * terminator, and a fixed one that counts on after the first piece it has no room for.
 */
module Sink {
  import opened Octets

  const INITIAL_SIZE := 16

  /** dynamic_encoder_key: `written` is all that came through, kept or not. */
  class DynamicBuffer {
    var buffer: array?<Octet>
    var computedSize: nat
    ghost var written: seq<Octet>

    ghost predicate Valid()
      reads this, buffer
    {
      && computedSize == |written|
      && (buffer != null ==> computedSize < buffer.Length && buffer[..computedSize] == written)
    }

    constructor (mallocOk: bool)
      ensures Valid() && written == [] && (buffer != null <==> mallocOk) && (buffer != null ==> fresh(buffer))
    {
      var area := new Octet[INITIAL_SIZE];
      buffer := if mallocOk then area else null;
      computedSize, written := 0, [];
    }

    /** dynamic_encoder_cb: room for one more octet is left behind whatever is put. */
    method Put(data: seq<Octet>, reallocOk: bool)
      requires Valid()
      modifies this, buffer
      ensures Valid() && written == old(written) + data
      ensures old(buffer) == null ==> buffer == null
      ensures buffer != old(buffer) ==> buffer == null || fresh(buffer)
      ensures old(buffer) != null && reallocOk ==> buffer != null
    {
      written := written + data;
      if buffer != null {
        if computedSize + |data| >= buffer.Length {
          var newSize := DoubledAbove(buffer.Length, computedSize + |data|);
          if !reallocOk {
            buffer := null;
            computedSize := computedSize + |data|;
            return;
          }
          var area := Enlarged(buffer, newSize, computedSize);
          buffer := area;
        }
        Copy(buffer, computedSize, data);
      }
      computedSize := computedSize + |data|;
    }

    /** 0-terminate just in case: there is room. */
    method Terminate()
      requires Valid()
      modifies buffer
      ensures Valid() && (buffer != null ==> buffer[..computedSize + 1] == written + [0])
    {
      if buffer != null {
        buffer[computedSize] := 0;
        assert buffer[..computedSize + 1] == buffer[..computedSize] + [0];
      }
    }
  }

  method DoubledAbove(size: nat, needed: nat) returns (newSize: nat)
    requires size > 0
    ensures newSize > needed && newSize > size
  {
    newSize := size * 2;
    while newSize <= needed
      invariant newSize > size
      decreases needed - newSize
    {
      newSize := newSize * 2;
    }
  }

  /** realloc: the octets in use are kept. */
  method Enlarged(buffer: array<Octet>, newSize: nat, used: nat) returns (area: array<Octet>)
    requires used <= buffer.Length <= newSize
    ensures fresh(area) && area.Length == newSize && area[..used] == buffer[..used]
  {
    area := new Octet[newSize];
    forall k | 0 <= k < used {
      area[k] := buffer[k];
    }
  }

  method Copy(buffer: array<Octet>, at: nat, data: seq<Octet>)
    requires at + |data| <= buffer.Length
    modifies buffer
    ensures buffer[..at + |data|] == old(buffer[..at]) + data
    ensures buffer[at + |data|..] == old(buffer[at + |data|..])
  {
    forall k | 0 <= k < |data| {
      buffer[at + k] := data[k];
    }
  }

  /** asn_encode_to_new_buffer, over the pieces that an encoder produces. */
  method ToNewBuffer(chunks: seq<seq<Octet>>) returns (buffer: array<Octet>, size: nat)
    ensures fresh(buffer) && size == |Concat(chunks)| < buffer.Length
    ensures buffer[..size + 1] == Concat(chunks) + [0]
  {
    var key := new DynamicBuffer(true);
    var i := 0;
    while i < |chunks|
      invariant 0 <= i <= |chunks| && key.Valid() && key.buffer != null && fresh(key.buffer)
      invariant key.written == Concat(chunks[..i])
    {
      key.Put(chunks[i], true);
      ConcatMore(chunks, i);
      i := i + 1;
    }
    assert chunks[..i] == chunks;
    key.Terminate();
    return key.buffer, key.computedSize;
  }

  /** The pieces that come before the first one that does not fit. */
  function Fitting(chunks: seq<seq<Octet>>, capacity: nat): (n: nat)
    ensures n <= |chunks|
  {
    if chunks == [] then 0
    else
      var n := Fitting(chunks[..|chunks| - 1], capacity);
      if n == |chunks| - 1 && |Concat(chunks)| <= capacity then n + 1 else n
  }

  /** Those pieces fit, and the next one would not. */
  lemma {:induction false} FittingIs(chunks: seq<seq<Octet>>, capacity: nat)
    ensures var n := Fitting(chunks, capacity);
      && |Concat(chunks[..n])| <= capacity
      && (n < |chunks| ==> |Concat(chunks[..n + 1])| > capacity)
  {
    if chunks != [] {
      var front := chunks[..|chunks| - 1];
      FittingIs(front, capacity);
      var n := Fitting(front, capacity);
      assert chunks[..n] == front[..n];
      if n < |front| {
        assert chunks[..n + 1] == front[..n + 1];
      }
      assert chunks[..|chunks|] == chunks;
    }
  }

  /** overrun_encoder_key. */
  class OverrunBuffer {
    const buffer: array<Octet>
    var bufferSize: nat
    var computedSize: nat
    ghost var chunks: seq<seq<Octet>>

    /** What is in the buffer: the pieces before the first one that did not fit, untouched since. */
    ghost predicate Valid()
      reads this, buffer
    {
      && computedSize == |Concat(chunks)|
      && (var n := Fitting(chunks, buffer.Length);
          var kept := Concat(chunks[..n]);
          && bufferSize == (if n == |chunks| then buffer.Length else 0)
          && |kept| <= buffer.Length && buffer[..|kept|] == kept)
      && (Fitting(chunks, buffer.Length) < |chunks| ==> computedSize > 0)
    }

    constructor (buffer: array<Octet>)
      ensures Valid() && chunks == [] && this.buffer == buffer
    {
      this.buffer, bufferSize, computedSize, chunks := buffer, buffer.Length, 0, [];
    }

    /** overrun_encoder_cb: goes on counting when it has stopped adding. */
    method Put(data: seq<Octet>)
      requires Valid()
      modifies this, buffer
      ensures Valid() && chunks == old(chunks) + [data]
    {
      ghost var was, n := chunks, Fitting(chunks, buffer.Length);
      chunks := chunks + [data];
      assert chunks[..|was|] == was && was[..|was|] == was && chunks[..n] == was[..n];
      assert chunks[..|chunks|] == chunks;
      ConcatMore(chunks, |was|);
      FittingIs(was, buffer.Length);
      if computedSize + |data| > bufferSize {
        bufferSize := 0;
      } else {
        Copy(buffer, computedSize, data);
      }
      computedSize := computedSize + |data|;
    }
  }
}

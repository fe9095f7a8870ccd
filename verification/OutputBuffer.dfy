/**
  Output through a fixed-size buffer: one that passes on at most a given number of
  characters and counts them all, and one that only counts.
 */
module OutputBuffer {

  const BUFFER_SIZE: nat := 256

  function Min(a: nat, b: nat): nat { if a < b then a else b }

  lemma OneChunkMore(written: seq<char>, text: seq<char>, begin: nat, chunk: nat)
    requires begin + chunk <= |text|
    ensures (written + text[..begin]) + text[begin..begin + chunk] == written + text[..begin + chunk]
  {
    assert text[..begin + chunk] == text[..begin] + text[begin..begin + chunk];
  }

  /** A buffer in front of an output that takes a limited number of characters. */
  class TruncatingBuffer {
    const data: array<char>
    var size: nat
    /** What has been passed on. */
    var out: seq<char>
    var count: nat
    const limit: nat
    /** What has been flushed, whether or not it was passed on. */
    ghost var flushed: seq<char>

    ghost predicate Valid()
      reads this, data
    {
      && data.Length == BUFFER_SIZE && size <= BUFFER_SIZE
      && count == |flushed| && out == flushed[..Min(limit, |flushed|)]
    }

    /** Everything written so far. */
    ghost function Written(): seq<char>
      reads this, data
      requires Valid()
    {
      flushed + data[..size]
    }

    constructor (limit: nat)
      ensures Valid() && fresh(data) && this.limit == limit && Written() == []
    {
      data := new char[BUFFER_SIZE];
      size, out, count, flushed := 0, [], 0, [];
      this.limit := limit;
    }

    /** How many of the next n characters are still within the limit; all of them are counted. */
    method Limit(n: nat) returns (taken: nat)
      modifies this`count
      ensures count == old(count) + n
      ensures taken == Min(limit, count) - Min(limit, old(count))
    {
      var left := if limit > count then limit - count else 0;
      count := count + n;
      taken := if n < left then n else left;
    }

    method Flush()
      requires Valid()
      modifies this`size, this`out, this`count, this`flushed
      ensures Valid() && size == 0 && Written() == old(Written()) && flushed == Written()
    {
      var taken := Limit(size);
      ghost var before := flushed;
      flushed := flushed + data[..size];
      out := out + data[..taken];
      assert out == flushed[..Min(limit, |flushed|)] by {
        assert data[..taken] == flushed[|before|..|before| + taken];
      }
      size := 0;
    }

    /** Makes room for at least one more character. */
    method TryReserve(capacity: nat)
      requires Valid()
      modifies this`size, this`out, this`count, this`flushed
      ensures Valid() && Written() == old(Written())
      ensures capacity > BUFFER_SIZE ==> size < BUFFER_SIZE
      ensures capacity <= BUFFER_SIZE ==> size == old(size)
    {
      if capacity > BUFFER_SIZE && size == BUFFER_SIZE {
        Flush();
      }
    }

    method PushBack(c: char)
      requires Valid()
      modifies this`size, this`out, this`count, this`flushed, data
      ensures Valid() && Written() == old(Written()) + [c]
    {
      TryReserve(size + 1);
      data[size] := c;
      size := size + 1;
    }

    /** Appends text in chunks; every pass has room for at least one character. */
    method Append(text: seq<char>)
      requires Valid()
      modifies this`size, this`out, this`count, this`flushed, data
      ensures Valid() && Written() == old(Written()) + text
    {
      var begin := 0;
      var first := true;
      while first || begin != |text|
        invariant 0 <= begin <= |text| && Valid() && Written() == old(Written()) + text[..begin]
        decreases |text| - begin, first
      {
        first := false;
        var chunk := |text| - begin;
        TryReserve(size + chunk);
        var free := BUFFER_SIZE - size;
        if free < chunk {
          chunk := free;
        }
        OneChunkMore(old(Written()), text, begin, chunk);
        Copy(text[begin..begin + chunk]);
        begin := begin + chunk;
      }
      assert text[..begin] == text;
    }

    /** Copies a chunk that fits behind the characters in the buffer. */
    method Copy(chunk: seq<char>)
      requires Valid() && size + |chunk| <= BUFFER_SIZE
      modifies this`size, data
      ensures Valid() && Written() == old(Written()) + chunk
    {
      ghost var before := data[..size];
      forall k | 0 <= k < |chunk| {
        data[size + k] := chunk[k];
      }
      size := size + |chunk|;
      assert data[..size] == before + chunk;
    }

    /** The total written, passed on or not. */
    method Count() returns (n: nat)
      requires Valid()
      ensures n == |Written()|
    {
      n := count + size;
    }
  }

  /** A buffer whose contents are dropped when it is full. */
  class CountingBuffer {
    const data: array<char>
    var size: nat
    var count: nat

    ghost predicate Valid()
      reads this
    {
      data.Length == BUFFER_SIZE && size <= BUFFER_SIZE
    }

    constructor ()
      ensures Valid() && fresh(data) && count + size == 0
    {
      data := new char[BUFFER_SIZE];
      size, count := 0, 0;
    }

    method TryReserve(capacity: nat)
      requires Valid()
      modifies this
      ensures Valid() && count + size == old(count + size)
      ensures capacity > BUFFER_SIZE ==> size < BUFFER_SIZE
      ensures capacity <= BUFFER_SIZE ==> size == old(size)
    {
      if capacity > BUFFER_SIZE && size == BUFFER_SIZE {
        count, size := count + size, 0;
      }
    }

    method PushBack(c: char)
      requires Valid()
      modifies this, data
      ensures Valid() && count + size == old(count + size) + 1
    {
      TryReserve(size + 1);
      data[size] := c;
      size := size + 1;
    }

    method Append(text: seq<char>)
      requires Valid()
      modifies this, data
      ensures Valid() && count + size == old(count + size) + |text|
    {
      var begin := 0;
      var first := true;
      while first || begin != |text|
        invariant 0 <= begin <= |text| && Valid() && count + size == old(count + size) + begin
        decreases |text| - begin, first
      {
        first := false;
        var chunk := |text| - begin;
        TryReserve(size + chunk);
        var free := BUFFER_SIZE - size;
        if free < chunk {
          chunk := free;
        }
        forall k | 0 <= k < chunk {
          data[size + k] := text[begin + k];
        }
        size, begin := size + chunk, begin + chunk;
      }
    }
  }

  // ---------------------------------------------------------- whole outputs

  /** A formatter's output, as it reaches the buffer. */
  datatype Piece = One(c: char) | Many(text: seq<char>)

  function Characters(pieces: seq<Piece>): seq<char>
  {
    if pieces == [] then [] else
      var last := pieces[|pieces| - 1];
      Characters(pieces[..|pieces| - 1]) + if last.One? then [last.c] else last.text
  }

  /** At most n characters of the output, in order, and the size of all of it. */
  method FormatToN(pieces: seq<Piece>, n: nat) returns (out: seq<char>, total: nat)
    ensures out == Characters(pieces)[..Min(n, |Characters(pieces)|)] && total == |Characters(pieces)|
  {
    var buffer := new TruncatingBuffer(n);
    var i := 0;
    while i != |pieces|
      invariant 0 <= i <= |pieces| && buffer.Valid() && fresh(buffer) && fresh(buffer.data)
      invariant buffer.Written() == Characters(pieces[..i])
      decreases |pieces| - i
    {
      assert pieces[..i + 1][..i] == pieces[..i];
      match pieces[i] {
        case One(c) => buffer.PushBack(c);
        case Many(text) => buffer.Append(text);
      }
      i := i + 1;
    }
    assert pieces[..i] == pieces;
    buffer.Flush();
    out := buffer.out;
    total := buffer.Count();
  }

  /** The size of the output, with no output at all. */
  method FormattedSize(pieces: seq<Piece>) returns (total: nat)
    ensures total == |Characters(pieces)|
  {
    var buffer := new CountingBuffer();
    var i := 0;
    while i != |pieces|
      invariant 0 <= i <= |pieces| && buffer.Valid() && fresh(buffer) && fresh(buffer.data)
      invariant buffer.count + buffer.size == |Characters(pieces[..i])|
      decreases |pieces| - i
    {
      assert pieces[..i + 1][..i] == pieces[..i];
      match pieces[i] {
        case One(c) => buffer.PushBack(c);
        case Many(text) => buffer.Append(text);
      }
      i := i + 1;
    }
    assert pieces[..i] == pieces;
    total := buffer.count + buffer.size;
  }
}

/** `cu_MemStream`: a cursor over bytes kept in a vector. */
module MemStreams {
  import opened Options
  import opened Utility
  import Vectors

  datatype IoError = InvalidInput | OutOfMemory | UnexpectedEof

  datatype Outcome = Done | Failed(error: IoError) | Panicked

  datatype Whence = Start | Current | End

  /** The bytes with `data` laid over them from `pos` on. */
  function Overlay(c: seq<nat>, pos: nat, data: seq<nat>): (r: seq<nat>)
    requires pos <= |c|
    ensures |r| >= |c|
  {
    c[..pos] + data + (if pos + |data| < |c| then c[pos + |data|..] else [])
  }

  /** The bytes a read of `n` at `pos` yields. */
  function Visible(c: seq<nat>, pos: nat, n: nat): seq<nat>
    requires pos <= |c|
  {
    c[pos..pos + Min(n, |c| - pos)]
  }

  /** Reading where one has just written gives the data back, and reading anywhere else
      gives what was there before. */
  lemma ReadBack(c: seq<nat>, pos: nat, data: seq<nat>, at: nat, n: nat)
    requires pos <= |c|
    ensures Visible(Overlay(c, pos, data), pos, |data|) == data
    ensures at <= |c| && (at + n <= pos || (pos + |data| <= at && at + n <= |c|)) ==>
      Visible(Overlay(c, pos, data), at, n) == Visible(c, at, n)
  {
    var r := Overlay(c, pos, data);
    assert r[pos..pos + |data|] == data;
    if at + n <= pos {
      assert r[at..at + n] == c[at..at + n];
    } else if pos + |data| <= at && at + n <= |c| {
      assert r[at..at + n] == c[at..at + n];
    }
  }

  /** Two reads in a row are one. */
  lemma ReadTwice(c: seq<nat>, pos: nat, a: nat, b: nat)
    requires pos <= |c|
    ensures pos + |Visible(c, pos, a)| <= |c|
    ensures Visible(c, pos, a) + Visible(c, pos + |Visible(c, pos, a)|, b) == Visible(c, pos, a + b)
  {
  }

  /** A read yields every byte up to the end, as many as asked for. */
  lemma VisibleBytes(c: seq<nat>, pos: nat, n: nat)
    requires pos <= |c|
    ensures |Visible(c, pos, n)| == n <==> pos + n <= |c|
    ensures |Visible(c, pos, n)| < n ==> pos + |Visible(c, pos, n)| == |c|
    ensures forall i :: 0 <= i < |Visible(c, pos, n)| ==> Visible(c, pos, n)[i] == c[pos + i]
  {
  }

  class MemStream {
    const buffer: Vectors.Vector<nat>
    var pos: nat

    ghost predicate Valid()
      reads this, buffer, if buffer.data == null then {} else {buffer.data}
    {
      buffer.Valid() && pos <= buffer.length < WORD_LIMIT
    }

    ghost function Contents(): seq<nat>
      requires Valid()
      reads this, buffer, if buffer.data == null then {} else {buffer.data}
    {
      buffer.Contents()
    }

    constructor (buffer: Vectors.Vector<nat>)
      requires buffer.Valid() && buffer.Contents() == []
      ensures Valid() && this.buffer == buffer && Contents() == [] && pos == 0
    {
      this.buffer := buffer;
      pos := 0;
    }

    /** `cu_MemStream_create`: no stream when its first buffer is refused. */
    static method Create(capacity: nat, granted: bool) returns (r: MemStream?)
      ensures r == null <==> capacity > 0 && !granted
      ensures r != null ==>
        && fresh(r) && fresh(r.buffer) && r.Valid() && r.Contents() == [] && r.pos == 0
        && (r.buffer.data == null <==> capacity == 0)
    {
      var buffer := Vectors.Vector<nat>.Create(Some(capacity), granted);
      if buffer == null {
        return null;
      }
      r := new MemStream(buffer);
    }

    /** Reads up to the end; falling short is an error, but what there is is read. */
    method Read(len: nat) returns (e: Option<IoError>, out: seq<nat>)
      requires Valid()
      modifies this
      ensures Valid() && out == Visible(Contents(), old(pos), len) && pos == old(pos) + |out|
      ensures e == if |out| < len then Some(UnexpectedEof) else None
    {
      var avail := 0;
      if buffer.length > pos {
        avail := buffer.length - pos;
      }
      var n := len;
      if avail < n {
        n := avail;
      }
      out := [];
      if n > 0 {
        var src := buffer.Subslice(pos, n);
        out := buffer.data[src.value.0..src.value.0 + src.value.1];
        pos := pos + n;
      }
      e := if n < len then Some(UnexpectedEof) else None;
    }

    /** Lays data over the bytes at the cursor, growing the vector as needed. An empty
        write to a stream that has no buffer yet panics. */
    method Write(data: seq<nat>, granted: bool) returns (r: Outcome)
      requires Valid() && pos + |data| < WORD_LIMIT
      modifies this, buffer, if buffer.data == null then {} else {buffer.data}
      ensures Valid()
      ensures r.Done? ==> Contents() == Overlay(old(Contents()), old(pos), data) && pos == old(pos) + |data|
      ensures !r.Done? ==> Contents() == old(Contents()) && pos == old(pos)
      ensures r.Panicked? <==> data == [] && old(buffer.data) == null
      ensures r.Failed? <==> old(pos) + |data| > old(buffer.capacity) && !granted
      ensures r.Failed? ==> r == Failed(OutOfMemory)
    {
      ghost var c := Contents();
      var needed := pos + |data|;
      if needed > buffer.length {
        var e := buffer.Resize(needed, granted);
        if e.Some? {
          return Failed(OutOfMemory);
        }
      }
      var dest := buffer.Subslice(pos, |data|);
      if dest.None? {
        return Panicked;
      }
      ghost var d, whole := buffer.Contents(), buffer.data[..];
      CopyIn(buffer.data, dest.value.0, data);
      OverlayIs(c, d, whole, pos, data);
      pos := pos + |data|;
      r := Done;
    }

    /** The new position is computed in a machine word: an offset close to its limit
        moves backwards. Positions beyond the end are refused. */
    method Seek(whence: Whence, offset: nat) returns (e: Option<IoError>)
      requires Valid() && offset < WORD_LIMIT
      modifies `pos
      ensures Valid()
      ensures var base := match whence { case Start => 0 case Current => old(pos) case End => buffer.length };
        var target := (base + offset) % WORD_LIMIT;
        if target <= buffer.length then e == None && pos == target else e == Some(InvalidInput) && pos == old(pos)
    {
      var base := 0;
      match whence {
        case Start =>
        case Current => base := pos;
        case End => base := buffer.length;
      }
      var newPos := (base + offset) % WORD_LIMIT;
      if newPos > buffer.length {
        return Some(InvalidInput);
      }
      pos := newPos;
      e := None;
    }
  }

  /** Writing into a buffer that begins with the old bytes, as far as those go. */
  lemma OverlayIs(c: seq<nat>, d: seq<nat>, whole: seq<nat>, pos: nat, data: seq<nat>)
    requires pos <= |c| && |d| == (if pos + |data| > |c| then pos + |data| else |c|) && d[..|c|] == c
    requires |d| <= |whole| && whole[..|d|] == d
    ensures (whole[..pos] + data + whole[pos + |data|..])[..|d|] == Overlay(c, pos, data)
  {
    var r := (whole[..pos] + data + whole[pos + |data|..])[..|d|];
    assert |r| == |Overlay(c, pos, data)|;
    forall i | 0 <= i < |r| ensures r[i] == Overlay(c, pos, data)[i] {
      assert i < |c| ==> whole[i] == d[i] == c[i];
    }
  }

  /** A seek relative to the cursor by the complement of `k` goes back by `k`. */
  lemma SeekBackwards(pos: nat, k: nat)
    requires 0 < k <= pos < WORD_LIMIT
    ensures (pos + (WORD_LIMIT - k)) % WORD_LIMIT == pos - k
  {
  }

  method CopyIn(dst: array<nat>, at: nat, src: seq<nat>)
    requires at + |src| <= dst.Length
    modifies dst
    ensures dst[..] == old(dst[..at]) + src + old(dst[at + |src|..])
  {
    for i := 0 to |src|
      invariant dst[..] == old(dst[..at]) + src[..i] + old(dst[at + i..])
    {
      dst[at + i] := src[i];
    }
  }
}

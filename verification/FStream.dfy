/** `cu_FStream`: a file behind a ring buffer. */
module FStreams {
  import opened Options
  import opened RingBuffers
  import opened Utility

  datatype IoError = InvalidInput | OutOfMemory | Failed

  /** A file: its bytes and the position of the next access. */
  datatype File = File(bytes: seq<nat>, pos: nat)

  datatype Whence = Start | Current | End

  /** Bytes up to position `n`, with zeros where there were none. */
  function Padded(bytes: seq<nat>, n: nat): (r: seq<nat>)
    ensures |r| == if |bytes| < n then n else |bytes|
    ensures forall i :: 0 <= i < |r| ==> r[i] == if i < |bytes| then bytes[i] else 0
  {
    if |bytes| < n then bytes + seq(n - |bytes|, _ => 0) else bytes
  }

  /** The file after `data` is written at its position; writing nothing is no change. */
  function Written(f: File, data: seq<nat>): File {
    if data == [] then f
    else
      var b := Padded(f.bytes, f.pos + |data|);
      File(b[..f.pos] + data + b[f.pos + |data|..], f.pos + |data|)
  }

  /** The file after a write by the operating system, which goes to the end of a file
      opened to append wherever its position is. */
  function Put(append: bool, f: File, data: seq<nat>): File {
    if append && data != [] then Written(f.(pos := |f.bytes|), data) else Written(f, data)
  }

  function Sought(f: File, whence: Whence, offset: nat): File {
    match whence
    case Start => f.(pos := offset)
    case Current => f.(pos := f.pos + offset)
    case End => f.(pos := |f.bytes| + offset)
  }

  function Available(f: File): nat { if f.pos < |f.bytes| then |f.bytes| - f.pos else 0 }

  /** Every byte of the written file. */
  lemma WrittenBytes(f: File, data: seq<nat>)
    requires data != []
    ensures var g, end := Written(f, data), f.pos + |data|;
      && g.pos == end && |g.bytes| == (if |f.bytes| < end then end else |f.bytes|)
      && forall i :: 0 <= i < |g.bytes| ==>
        g.bytes[i] == if f.pos <= i < end then data[i - f.pos] else if i < |f.bytes| then f.bytes[i] else 0
  {
  }

  /** Writing in two parts is writing at once. */
  lemma WrittenTwice(f: File, a: seq<nat>, b: seq<nat>)
    ensures Written(Written(f, a), b) == Written(f, a + b)
  {
    if a == [] {
      assert a + b == b;
    } else if b == [] {
      assert a + b == a;
    } else {
      WrittenInParts(f, a, b);
    }
  }

  lemma WrittenInParts(f: File, a: seq<nat>, b: seq<nat>)
    requires a != [] && b != []
    ensures Written(Written(f, a), b) == Written(f, a + b)
  {
    hide Written;
    WrittenBytes(f, a);
    WrittenBytes(Written(f, a), b);
    WrittenBytes(f, a + b);
    var g, h := Written(Written(f, a), b), Written(f, a + b);
    assert g.bytes == h.bytes;
  }

  /** What a write does to the bytes and to the position: in append mode the bytes come
      after all there are, otherwise from the position on. */
  lemma PutBytes(append: bool, f: File, data: seq<nat>)
    requires data != []
    ensures append ==> Put(append, f, data) == File(f.bytes + data, |f.bytes| + |data|)
    ensures !append && f.pos <= |f.bytes| && f.pos + |data| <= |f.bytes| ==>
      Put(append, f, data) == File(f.bytes[..f.pos] + data + f.bytes[f.pos + |data|..], f.pos + |data|)
    ensures !append && f.pos <= |f.bytes| < f.pos + |data| ==>
      Put(append, f, data) == File(f.bytes[..f.pos] + data, f.pos + |data|)
    ensures !append && f.pos > |f.bytes| ==>
      Put(append, f, data) == File(f.bytes + seq(f.pos - |f.bytes|, _ => 0) + data, f.pos + |data|)
  {
    WrittenBytes(f, data);
    WrittenBytes(f.(pos := |f.bytes|), data);
  }

  /** A seek moves nothing but the position: to the offset, on by it, or past the end. What
      is appended goes to the end all the same. */
  lemma SoughtPosition(f: File, whence: Whence, offset: nat, data: seq<nat>)
    ensures Sought(f, whence, offset).bytes == f.bytes
    ensures Sought(f, Start, offset).pos == offset
    ensures Sought(f, Current, offset).pos - f.pos == offset
    ensures Sought(f, End, offset).pos - offset == |f.bytes|
    ensures data != [] ==> Put(true, Sought(f, whence, offset), data) == Put(true, f, data)
  {
  }

  lemma PutTwice(append: bool, f: File, a: seq<nat>, b: seq<nat>)
    ensures Put(append, Put(append, f, a), b) == Put(append, f, a + b)
  {
    hide Written;
    if append && a != [] {
      AppendEndsLast(f, a);
      WrittenTwice(f.(pos := |f.bytes|), a, b);
    } else if append {
      WrittenTwice(f, a, []);
      assert a + b == b && Written(f, []) == f by { EmptyWrite(f); }
    } else {
      WrittenTwice(f, a, b);
    }
  }

  lemma AppendEndsLast(f: File, a: seq<nat>)
    ensures var g := Written(f.(pos := |f.bytes|), a); a != [] ==> g.bytes == f.bytes + a && g.pos == |g.bytes|
  {
  }

  lemma EmptyWrite(f: File)
    ensures Written(f, []) == f
  {
  }

  /** A writer's position does not move over what is pending exactly when nothing is, or
      when it is to be appended and the position already stands where that will end. */
  lemma PositionAfter(append: bool, f: File, pending: seq<nat>)
    ensures f.pos == Put(append, f, pending).pos <==>
      pending == [] || (append && f.pos == |f.bytes| + |pending|)
  {
  }

  class FStream {
    var file: File
    const buffer: RingBuffer<nat>
    const reading: bool
    // Whether the operating system writes at the end of the file.
    const append: bool
    // Whether the operating system and the allocator refuse nothing and cut nothing short.
    const reliable: bool
    // The position in the file of the next byte a reader gets, and where it began.
    ghost var at: nat
    ghost var start: nat
    // Whether no read since then has fallen short before the end of the file.
    ghost var whole: bool

    ghost predicate Valid()
      reads this, buffer, buffer.data
    {
      buffer.Valid() && (reading && whole ==> Ahead(file, at, start, buffer.Contents()))
    }

    constructor (file: File, buffer: RingBuffer<nat>, reading: bool, append: bool, reliable: bool)
      requires buffer.Valid() && buffer.Contents() == []
      ensures Valid() && this.file == file && this.buffer == buffer
      ensures this.reading == reading && this.append == append && this.reliable == reliable
      ensures at == start == file.pos && whole
    {
      this.file, this.buffer, this.reading, this.append, this.reliable := file, buffer, reading, append, reliable;
      at, start, whole := file.pos, file.pos, true;
    }

    /** `cu_FStream_open`: `file` is what the operating system opened, if it did. A
        stream only reads when it is opened for reading and not for writing; `append` is
        left to the operating system. */
    static method Open(file: Option<File>, capacity: nat, read: bool, write: bool, append: bool,
        granted: bool, reliable: bool) returns (r: FStream?, e: Option<IoError>)
      ensures e == if file.None? then Some(Failed) else if capacity > 0 && !granted then Some(OutOfMemory) else None
      ensures r == null <==> e.Some?
      ensures r != null ==>
        && fresh(r) && fresh(r.buffer) && fresh(r.buffer.data) && r.Valid() && r.buffer.Contents() == []
        && r.buffer.capacity == capacity && r.file == file.value && r.at == r.start == r.file.pos
        && r.reading == (read && !write) && r.append == append && r.reliable == reliable && r.whole
    {
      if file.None? {
        return null, Some(Failed);
      }
      var buffer := RingBuffer<nat>.Create(capacity, granted);
      if buffer == null {
        return null, Some(OutOfMemory);
      }
      r := new FStream(file.value, buffer, read && !write, append, reliable);
      e := None;
    }

    /** The file as it would be without a buffer: what is pending is overlaid at the
        file's position, or appended. */
    ghost function Unbuffered(): File
      requires buffer.Valid()
      reads this, buffer, buffer.data
    {
      Put(append, file, buffer.Contents())
    }

    /** A write by the operating system: everything, or an error and nothing. */
    method FileWrite(data: seq<nat>) returns (e: Option<IoError>)
      modifies `file
      ensures file == if e.None? then Put(append, old(file), data) else old(file)
      ensures if reliable then e == None else e == None || e == Some(Failed)
    {
      var ok: bool :| reliable ==> ok;
      if ok {
        file := Put(append, file, data);
        return None;
      }
      e := Some(Failed);
    }

    method FlushBuffer() returns (e: Option<IoError>)
      requires Valid() && !reading
      modifies `file, buffer
      ensures Valid() && (reliable ==> e == None) && (e == None || e == Some(OutOfMemory) || e == Some(Failed))
      ensures e.None? ==> file == old(Unbuffered()) && buffer.Contents() == []
      // Without memory nothing happens; a failed write loses what was pending.
      ensures e == Some(OutOfMemory) ==> file == old(file) && buffer.Contents() == old(buffer.Contents())
      ensures e == Some(Failed) ==> file == old(file) && buffer.Contents() == []
    {
      var len := buffer.length;
      if len == 0 {
        return None;
      }
      var granted: bool :| reliable ==> granted;
      if !granted {
        return Some(OutOfMemory);
      }
      var tmp := Drain(len);
      e := FileWrite(tmp);
    }

    /** Takes everything out of the buffer. */
    method Drain(len: nat) returns (tmp: seq<nat>)
      requires buffer.Valid() && len == buffer.length
      modifies buffer
      ensures buffer.Valid() && buffer.Contents() == [] && tmp == old(buffer.Contents())
    {
      tmp := [];
      for i := 0 to len
        invariant buffer.Valid() && buffer.length == len - i
        invariant tmp + buffer.Contents() == old(buffer.Contents())
      {
        var e, b := buffer.Pop();
        tmp := tmp + [b.value];
      }
    }

    method Flush() returns (e: Option<IoError>)
      requires Valid()
      modifies `file, buffer
      ensures Valid() && (reliable ==> e == None) && (e == None || e == Some(OutOfMemory) || e == Some(Failed))
      ensures reading ==> e == None && file == old(file) && buffer.Contents() == old(buffer.Contents())
      ensures !reading && e.None? ==> file == old(Unbuffered()) && buffer.Contents() == []
      ensures !reading && e == Some(OutOfMemory) ==> file == old(file) && buffer.Contents() == old(buffer.Contents())
      ensures !reading && e == Some(Failed) ==> file == old(file) && buffer.Contents() == []
    {
      e := None;
      if !reading {
        e := FlushBuffer();
      }
    }

    /** The file gets a first part of what was pending followed by the data, each byte
        once and in order. On success the rest is pending; when memory runs out, the
        rest of the first `n` data bytes is; a failed write loses what was pending. */
    method Write(data: seq<nat>) returns (e: Option<IoError>, ghost n: nat, ghost m: nat)
      requires Valid() && (data == [] || buffer.capacity > 0)
      modifies `file, buffer, buffer.data
      ensures Valid() && n <= |data| && m <= |old(buffer.Contents()) + data|
      ensures reading ==> e == Some(InvalidInput) && file == old(file) && buffer.Contents() == old(buffer.Contents())
      ensures !reading && reliable ==> e == None
      ensures !reading ==> file == Put(append, old(file), (old(buffer.Contents()) + data)[..m])
      ensures !reading && e.None? ==> n == |data|
      ensures !reading && e != Some(Failed) ==>
        && old(buffer.Contents()) + data[..n] == (old(buffer.Contents()) + data)[..m] + buffer.Contents()
        && Unbuffered() == Put(append, old(Unbuffered()), data[..n])
      ensures !reading && e == Some(Failed) ==> buffer.Contents() == []
    {
      hide Put;
      n, m := 0, 0;
      if reading {
        return Some(InvalidInput), 0, 0;
      }
      ghost var f, pending := file, buffer.Contents();
      NothingWritten(append, f, pending, data);
      for i := 0 to |data|
        invariant Valid() && n == i
        invariant Underway(append, f, file, pending, data, n, m, buffer.Contents())
      {
        if buffer.IsFull() {
          ghost var g, rest := file, buffer.Contents();
          e := FlushBuffer();
          if e.Some? {
            UnbufferedIs(append, f, g, pending, data, n, m, rest);
            return;
          }
          FlushedWhileWriting(append, f, g, pending, data, n, m, rest);
          m := |pending| + i;
        }
        PushedWhileWriting(append, f, file, pending, data, n, m, buffer.Contents());
        var full := buffer.Push(data[i]);
        n := i + 1;
      }
      e := None;
      UnbufferedIs(append, f, file, pending, data, n, m, buffer.Contents());
    }

    /** A read by the operating system into `n` bytes of fresh memory: at most as many
        bytes as the file has, the rest of the memory staying whatever it was. */
    method FileRead(n: nat) returns (e: Option<IoError>, tmp: seq<nat>, ghost k: nat)
      modifies `file
      ensures if reliable then e == None else e == None || e == Some(Failed)
      ensures e.Some? ==> file == old(file)
      ensures k <= Min(n, Available(old(file))) && (reliable ==> k == Min(n, Available(old(file))))
      ensures e.None? ==>
        && |tmp| == n && file == old(file).(pos := old(file.pos) + k)
        && forall i :: 0 <= i < k ==> tmp[i] == file.bytes[old(file.pos) + i]
    {
      var ok: bool :| reliable ==> ok;
      if !ok {
        return Some(Failed), [], Min(n, Available(file));
      }
      var all := Min(n, Available(file));
      var got: nat :| got <= all && (reliable ==> got == all);
      assert |seq(n - got, _ => 0)| == n - got;
      var junk: seq<nat> :| |junk| == n - got;
      tmp := (if got == 0 then [] else file.bytes[file.pos..file.pos + got]) + junk;
      file := file.(pos := file.pos + got);
      e, k := None, got;
    }

    /** Fills the empty buffer to its capacity, however many bytes there were. What is
        buffered is what comes next in the file exactly as long as no read falls short
        before the end. */
    method FillBuffer() returns (e: Option<IoError>)
      requires Valid() && reading && buffer.Contents() == [] && buffer.capacity > 0
      modifies `file, `whole, buffer, buffer.data
      ensures Valid() && file.bytes == old(file.bytes) && (whole ==> old(whole))
      ensures e.None? && old(whole) ==>
        (whole <==> file.pos == old(file.pos) + Min(buffer.capacity, Available(old(file)))) &&
        (whole <==> Ahead(file, at, start, buffer.Contents()))
      ensures reliable || e.Some? ==> whole == old(whole)
      ensures (reliable ==> e == None) && e != Some(InvalidInput)
      ensures if e.None? then |buffer.Contents()| == buffer.capacity else buffer.Contents() == []
    {
      var granted: bool :| reliable ==> granted;
      if !granted {
        return Some(OutOfMemory);
      }
      var tmp;
      ghost var k, all := 0, Min(buffer.capacity, Available(file));
      e, tmp, k := FileRead(buffer.capacity);
      if e.Some? {
        return;
      }
      whole := whole && k == all;
      for j := 0 to buffer.capacity
        modifies buffer, buffer.data
        invariant buffer.Valid() && buffer.Contents() == tmp[..j]
      {
        var full := buffer.Push(tmp[j]);
      }
      assert tmp[..buffer.capacity] == tmp;
    }

    /** Unless a read fell short before the end of the file, every byte read that the file
        has is the file's byte at that position. Reading past the end succeeds as well,
        with bytes the file does not have. */
    method Read(n: nat) returns (e: Option<IoError>, out: seq<nat>)
      requires Valid() && (n == 0 || buffer.capacity > 0)
      modifies `file, `at, `whole, buffer, buffer.data
      ensures Valid() && file.bytes == old(file.bytes) && (whole ==> old(whole)) && (reliable ==> whole == old(whole))
      ensures !reading ==> e == Some(InvalidInput) && out == [] && file == old(file)
      ensures reading ==> at == old(at) + |out| && |out| <= n && (e.None? <==> |out| == n)
      ensures reading && reliable ==> e == None
      ensures whole ==>
        forall i :: 0 <= i < |out| && old(at) + i < |file.bytes| ==> out[i] == file.bytes[old(at) + i]
      ensures whole && e.None? && old(at) + n <= |file.bytes| ==> out == file.bytes[old(at)..old(at) + n]
    {
      hide Ahead;
      out := [];
      if !reading {
        return Some(InvalidInput), [];
      }
      for i := 0 to n
        invariant Valid() && |out| == i && at == old(at) + i && file.bytes == old(file.bytes)
        invariant (whole ==> old(whole)) && (reliable ==> whole == old(whole))
        invariant whole ==>
          forall k :: 0 <= k < i && old(at) + k < |file.bytes| ==> out[k] == file.bytes[old(at) + k]
      {
        if buffer.IsEmpty() {
          e := FillBuffer();
          if e.Some? {
            return;
          }
        }
        var b := NextByte();
        out := out + [b];
      }
      e := None;
    }

    method NextByte() returns (b: nat)
      requires Valid() && reading && buffer.Contents() != []
      modifies `at, buffer
      ensures Valid() && at == old(at) + 1
      ensures whole && old(at) < |file.bytes| ==> b == file.bytes[old(at)]
    {
      ghost var pending := buffer.Contents();
      var empty, p := buffer.Pop();
      assert pending == [p.value] + buffer.Contents();
      if whole { AheadStep(file, at, start, p.value, buffer.Contents()); }
      b := p.value;
      at := at + 1;
    }

    /** Seeking starts from the position of the file, which is ahead of a reader's own
        except when the two agree. */
    method Seek(whence: Whence, offset: nat) returns (e: Option<IoError>)
      requires Valid()
      modifies `file, `at, `start, `whole, buffer
      ensures Valid() && (reliable ==> e == None)
      ensures e.None? && !reading ==> file == Sought(old(Unbuffered()), whence, offset)
      ensures e.None? && reading ==> file == Sought(old(file), whence, offset) && at == start == file.pos && whole
      ensures e.None? && reading && old(whole) && whence == Current ==>
        (at == old(at) + offset <==> InStep(old(file), old(at), old(start), old(buffer.Contents())))
      ensures e.None? ==> buffer.Contents() == []
      // Without memory for the flush nothing happens. Otherwise an error leaves nothing
      // pending, whether it reached the file before or is lost.
      ensures e.Some? ==> e == Some(OutOfMemory) || e == Some(Failed)
      ensures e == Some(OutOfMemory) ==>
        !reading && file == old(file) && buffer.Contents() == old(buffer.Contents())
      ensures e == Some(Failed) ==>
        buffer.Contents() == [] && (file == old(file) || (!reading && file == old(Unbuffered())))
    {
      e := Flush();
      if e.Some? {
        return;
      }
      buffer.Clear();
      var ok: bool :| reliable ==> ok;
      if !ok {
        at, start, whole := file.pos, file.pos, true;
        return Some(Failed);
      }
      file := Sought(file, whence, offset);
      at, start, whole := file.pos, file.pos, true;
    }

    /** The position of the file. A writer's own position counts what is pending, a
        reader's own does not count what is buffered. */
    method Tell() returns (pos: nat)
      requires Valid()
      ensures pos == file.pos
      ensures !reading ==>
        (pos == Unbuffered().pos <==>
          buffer.Contents() == [] || (append && pos == |file.bytes| + |buffer.Contents()|))
      ensures reading && whole ==> (pos == at <==> InStep(file, at, start, buffer.Contents()))
    {
      PositionAfter(append, file, buffer.Contents());
      pos := file.pos;
    }

    /** The error of the last flush is dropped. */
    method Close() returns (ghost e: Option<IoError>)
      requires Valid()
      modifies `file, buffer
      ensures (reliable ==> e == None) && buffer.Valid() && buffer.Contents() == []
      ensures !reading && e.None? ==> file == old(Unbuffered())
      ensures reading || e.Some? ==> file == old(file)
    {
      var err := Flush();
      e := err;
      buffer.Clear();
    }
  }

  /** `n` data bytes have been taken in; of these and what was `pending` before, `m`
      have reached the file and `rest` is pending now. */
  ghost predicate Underway(append: bool, f: File, file: File, pending: seq<nat>, data: seq<nat>, n: nat, m: nat,
      rest: seq<nat>) {
    && n <= |data| && m <= |pending| + n && file == Put(append, f, (pending + data)[..m])
    && pending + data[..n] == (pending + data)[..m] + rest
  }

  lemma NothingWritten(append: bool, f: File, pending: seq<nat>, data: seq<nat>)
    ensures Underway(append, f, f, pending, data, 0, 0, pending)
  {
  }

  lemma FlushedWhileWriting(append: bool, f: File, file: File, pending: seq<nat>, data: seq<nat>, n: nat, m: nat,
      rest: seq<nat>)
    requires Underway(append, f, file, pending, data, n, m, rest)
    ensures Underway(append, f, Put(append, file, rest), pending, data, n, |pending| + n, [])
  {
    hide Put;
    assert pending + data[..n] == (pending + data)[..|pending| + n];
    PutTwice(append, f, (pending + data)[..m], rest);
  }

  lemma PushedWhileWriting(append: bool, f: File, file: File, pending: seq<nat>, data: seq<nat>, n: nat, m: nat,
      rest: seq<nat>)
    requires Underway(append, f, file, pending, data, n, m, rest) && n < |data|
    ensures Underway(append, f, file, pending, data, n + 1, m, rest + [data[n]])
  {
    hide Put;
    assert data[..n + 1] == data[..n] + [data[n]];
    assert pending + data[..n + 1] == (pending + data[..n]) + [data[n]];
    assert ((pending + data)[..m] + rest) + [data[n]] == (pending + data)[..m] + (rest + [data[n]]);
  }

  /** The unbuffered file has everything taken in so far. */
  lemma UnbufferedIs(append: bool, f: File, file: File, pending: seq<nat>, data: seq<nat>, n: nat, m: nat,
      rest: seq<nat>)
    requires Underway(append, f, file, pending, data, n, m, rest)
    ensures Put(append, file, rest) == Put(append, Put(append, f, pending), data[..n])
  {
    hide Put;
    PutTwice(append, f, (pending + data)[..m], rest);
    PutTwice(append, f, pending, data[..n]);
  }

  /** How far the position of a file goes that is read from `start` on. */
  function Limit(file: File, start: nat): nat { if start < |file.bytes| then |file.bytes| else start }

  /** A reader's buffer holds the bytes of the file from `at` on, as far as the file
      goes; what lies beyond the end is arbitrary. The file is ahead of the reader by
      what is buffered, but never passes its limit. */
  ghost predicate Ahead(file: File, at: nat, start: nat, pending: seq<nat>) {
    && (forall i :: 0 <= i < |pending| && at + i < |file.bytes| ==> pending[i] == file.bytes[at + i])
    && start <= at && file.pos == Min(at + |pending|, Limit(file, start))
  }

  /** The file is where the reader is: nothing is buffered before the end of the file,
      or the reader has read exactly up to it. */
  ghost predicate InStep(file: File, at: nat, start: nat, pending: seq<nat>) {
    at == Limit(file, start) || (at < Limit(file, start) && pending == [])
  }

  /** A stream that read four bytes of an empty file has nothing buffered, and still
      its position is not the file's. */
  lemma PastTheEnd()
    ensures var f := File([], 0); Ahead(f, 4, 0, []) && !InStep(f, 4, 0, []) && f.pos != 4
  {
  }

  lemma AheadStep(file: File, at: nat, start: nat, b: nat, pending: seq<nat>)
    requires Ahead(file, at, start, [b] + pending)
    ensures Ahead(file, at + 1, start, pending) && (at < |file.bytes| ==> b == file.bytes[at])
  {
    var all := [b] + pending;
    assert all[0] == b;
    forall i | 0 <= i < |pending| && at + 1 + i < |file.bytes| ensures pending[i] == file.bytes[at + 1 + i] {
      assert all[i + 1] == pending[i];
    }
  }
}

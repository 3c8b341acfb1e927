/** Byte rings whose read and write positions carry a mirror bit, so that full and empty can be told apart. */
module RingBuffers {
  datatype State = Empty | Full | HalfFull

  type Byte = x: nat | x < 256

  function Min(a: nat, b: nat): (r: nat)
    ensures r <= a && r <= b && (r == a || r == b)
  {
    if a < b then a else b
  }

  /** The last `n` bytes. */
  function Newest(s: seq<Byte>, n: nat): seq<Byte> {
    if |s| <= n then s else s[|s| - n..]
  }

  lemma NewestIs(s: seq<Byte>, n: nat)
    ensures |Newest(s, n)| == if |s| <= n then |s| else n
    ensures exists older :: s == older + Newest(s, n)
  {
    var r := Newest(s, n);
    assert s == s[..|s| - |r|] + r;
  }

  function Turn(size: nat, i: nat): (r: nat)
    requires i < 2 * size
    ensures r < size
  {
    if i < size then i else i - size
  }

  /** The byte `k` places behind a position, once around. */
  function Look(ring: seq<Byte>, position: nat, k: nat): Byte
    requires position < |ring| && k < |ring|
  {
    ring[Turn(|ring|, position + k)]
  }

  ghost predicate Written(before: seq<Byte>, after: seq<Byte>, w: nat, bytes: seq<Byte>) {
    && w < |before| == |after| && |bytes| <= |before|
    && (forall j :: 0 <= j < |bytes| ==> Look(after, w, j) == bytes[j])
    && forall j :: |bytes| <= j < |after| ==> Look(after, w, j) == Look(before, w, j)
  }

  /** Writing the newest bytes over a ring leaves the newest of all bytes in it, read from the new position. */
  lemma Forced(before: seq<Byte>, after: seq<Byte>, r: nat, w: nat, stored: seq<Byte>, bytes: seq<Byte>,
               kept: seq<Byte>, r': nat)
    requires Written(before, after, w, kept) && kept == Newest(bytes, |before|)
    requires r < |before| && |stored| <= |before| && w == Turn(|before|, r + |stored|)
    requires forall i :: 0 <= i < |stored| ==> stored[i] == Look(before, r, i)
    requires r' == if |stored| + |kept| > |before| then Turn(|before|, w + |kept|) else r
    ensures var all := Newest(stored + bytes, |before|); forall i :: 0 <= i < |all| ==> all[i] == Look(after, r', i)
  {
    var size, n, all := |before|, |kept|, Newest(stored + bytes, |before|);
    KeptBytes(stored, bytes, kept, size);
    forall i | 0 <= i < |all|
      ensures all[i] == Look(after, r', i)
    {
      if |stored| + n > size {
        if i < size - n {
          assert Look(after, r', i) == Look(after, w, n + i) == Look(before, w, n + i) == Look(before, r,
                 |stored| - (size - n) + i);
        } else {
          assert Look(after, r', i) == Look(after, w, i - (size - n));
        }
      } else if i < |stored| {
        assert n < size || stored == [];
        assert Look(after, r, i) == Look(after, w, size - |stored| + i) == Look(before, w, size - |stored| + i);
      } else {
        assert Look(after, r, i) == Look(after, w, i - |stored|);
      }
    }
  }

  /** What is kept of the stored and the new bytes. */
  lemma KeptBytes(stored: seq<Byte>, bytes: seq<Byte>, kept: seq<Byte>, size: nat)
    requires kept == Newest(bytes, size) && |stored| <= size
    ensures var all := Newest(stored + bytes, size);
      if |stored| + |kept| <= size then all == stored + kept
      else |all| == size && (forall i :: 0 <= i < size - |kept| ==> all[i] == stored[|stored| - (size - |kept|) + i])
           && forall i :: size - |kept| <= i < size ==> all[i] == kept[i - (size - |kept|)]
  {
  }

  lemma WrittenOne(before: seq<Byte>, w: nat, ch: Byte)
    requires w < |before|
    ensures Written(before, before[w := ch], w, [ch])
  {
  }

  /** The write position is `len` places ahead of the read position, in the other mirror if it has gone
      around. */
  ghost predicate Apart(size: nat, r: nat, rm: bool, w: nat, wm: bool, len: nat) {
    && len <= size
    && if size == 0 then r == w == 0 && rm == wm
       else r < size && w == Turn(size, r + len) && (rm == wm <==> r + len < size)
  }

  /** The positions after `k` more bytes were written, and the read position pushed along if needed.  If
      both mirrors are toggled together the ring looks empty. */
  lemma StillApart(size: nat, r: nat, rm: bool, w: nat, wm: bool, len: nat, k: nat, r': nat, rm': bool, w': nat,
                   wm': bool)
    requires Apart(size, r, rm, w, wm, len) && 0 < size && k <= size && w' == Turn(size, w + k)
    requires wm' == if w + k >= size then !wm else wm
    requires len + k <= size ==> r' == r && rm' == rm
    requires len + k > size ==> r' == w' && rm' == if w + k >= size then !rm else rm
    ensures Apart(size, r', rm', w', wm',
            if len + k <= size then len + k else if w + k >= size && rm == wm then 0 else size)
  {
  }

  /** The positions after `n` bytes were read. */
  lemma ApartRead(size: nat, r: nat, rm: bool, w: nat, wm: bool, len: nat, n: nat, r': nat, rm': bool)
    requires Apart(size, r, rm, w, wm, len) && 0 < size && n <= len && r' == Turn(size, r + n)
    requires rm' == if r + n >= size then !rm else rm
    ensures Apart(size, r', rm', w, wm, len - n)
  {
  }

  /** The two copies out of a ring: up to its end, and from its start. */
  function Read(ring: seq<Byte>, r: nat, n: nat): seq<Byte>
    requires r < |ring| && n <= |ring|
  {
    if |ring| - r > n then ring[r..r + n] else ring[r..] + ring[..n - (|ring| - r)]
  }

  lemma ReadIs(ring: seq<Byte>, r: nat, stored: seq<Byte>, n: nat)
    requires r < |ring| && n <= |stored| <= |ring| && forall i :: 0 <= i < |stored| ==> stored[i] == Look(ring, r, i)
    ensures Read(ring, r, n) == stored[..n]
  {
    assert |Read(ring, r, n)| == n;
    forall i | 0 <= i < n
      ensures Read(ring, r, n)[i] == stored[i]
    {
      assert stored[i] == Look(ring, r, i);
    }
  }

  lemma RestIs(ring: seq<Byte>, r: nat, stored: seq<Byte>, n: nat)
    requires r < |ring| && n <= |stored| <= |ring| && forall i :: 0 <= i < |stored| ==> stored[i] == Look(ring, r, i)
    ensures forall i :: 0 <= i < |stored[n..]| ==> stored[n..][i] == Look(ring, Turn(|ring|, r + n), i)
  {
    forall i | 0 <= i < |stored| - n
      ensures stored[n..][i] == Look(ring, Turn(|ring|, r + n), i)
    {
      assert stored[n + i] == Look(ring, r, n + i);
    }
  }

  lemma WholeNewest(bytes: seq<Byte>, size: nat)
    requires |bytes| <= size
    ensures Newest(bytes, size) == bytes
  {
  }

  lemma NewestLength(stored: seq<Byte>, bytes: seq<Byte>, size: nat)
    ensures |Newest(bytes, size)| == Min(|bytes|, size)
    ensures |Newest(stored + bytes, size)| == Min(|stored| + |Newest(bytes, size)|, size)
  {
  }

  class RingBuffer {
    const buffer: array<Byte>
    var readMirror: bool
    var readIndex: nat
    var writeMirror: bool
    var writeIndex: nat
    ghost var data: seq<Byte>         // oldest first

    function Wrap(i: nat): (r: nat)
      requires i < 2 * buffer.Length
      ensures r < buffer.Length
    {
      Turn(buffer.Length, i)
    }

    /** The write position is `|data|` places ahead of the read position. */
    ghost predicate Positions()
      reads `readMirror, `readIndex, `writeMirror, `writeIndex, `data
    {
      Apart(buffer.Length, readIndex, readMirror, writeIndex, writeMirror, |data|)
    }

    ghost predicate Holds()
      requires readIndex < buffer.Length || data == []
      requires |data| <= buffer.Length
      reads `readIndex, `data, buffer
    {
      forall i :: 0 <= i < |data| ==> data[i] == At(readIndex, i)
    }

    /** The byte `k` places behind a position. */
    function At(position: nat, k: nat): Byte
      requires position < buffer.Length && k < buffer.Length
      reads buffer
    {
      Look(buffer[..], position, k)
    }

    ghost predicate Valid()
      reads this, buffer
    {
      Positions() && Holds()
    }

    function Status(): State
      reads `readMirror, `readIndex, `writeMirror, `writeIndex
    {
      if readIndex == writeIndex then (if readMirror == writeMirror then Empty else Full) else HalfFull
    }

    function DataLen(): int
      reads `readMirror, `readIndex, `writeMirror, `writeIndex
    {
      match Status()
      case Empty => 0
      case Full => buffer.Length
      case HalfFull => if writeIndex > readIndex then writeIndex - readIndex
        else buffer.Length - (readIndex - writeIndex)
    }

    /** The indices and mirrors alone tell how much is stored. */
    lemma DataLenIs()
      requires Positions()
      ensures DataLen() == |data|
      ensures buffer.Length > 0 ==>
              (Status() == Empty <==> data == []) && (Status() == Full <==> |data| == buffer.Length)
    {
    }

    /** rt_ringbuffer_init: the size is rounded down to a multiple of four. */
    constructor (size: nat)
      requires 0 < size < 0x8000
      ensures Valid() && data == [] && buffer.Length == size - size % 4 && fresh(buffer)
      ensures readIndex == 0 && !readMirror
    {
      buffer := new Byte[size - size % 4](i => 0);
      readMirror, readIndex, writeMirror, writeIndex, data := false, 0, false, 0, [];
    }

    /** memcpy into the buffer. */
    method CopyIn(at: nat, bytes: seq<Byte>)
      requires at + |bytes| <= buffer.Length
      modifies buffer
      ensures forall i :: 0 <= i < buffer.Length ==> buffer[i] == if at <= i < at + |bytes| then bytes[i - at]
              else old(buffer[i])
    {
      for k := 0 to |bytes|
        invariant forall i :: 0 <= i < buffer.Length ==> buffer[i] == if at <= i < at + k then bytes[i - at]
                  else old(buffer[i])
      {
        buffer[at + k] := bytes[k];
      }
    }

    /** The two copies of a block at the write position: up to the end of the buffer, and from its start. */
    method Store(bytes: seq<Byte>)
      requires writeIndex < buffer.Length && |bytes| <= buffer.Length
      modifies `writeMirror, `writeIndex, buffer
      ensures writeIndex == Wrap(old(writeIndex) + |bytes|)
      ensures writeMirror == if old(writeIndex) + |bytes| >= buffer.Length then !old(writeMirror) else old(writeMirror)
      ensures Written(old(buffer[..]), buffer[..], old(writeIndex), bytes)
    {
      if buffer.Length - writeIndex > |bytes| {
        CopyIn(writeIndex, bytes);
        writeIndex := writeIndex + |bytes|;
        return;
      }
      var room := buffer.Length - writeIndex;
      CopyIn(writeIndex, bytes[..room]);
      CopyIn(0, bytes[room..]);
      writeMirror := !writeMirror;
      writeIndex := |bytes| - room;
    }

    /** rt_ringbuffer_put: the longest prefix that fits is appended. */
    method Put(bytes: seq<Byte>) returns (n: nat)
      requires Valid()
      modifies this, buffer
      ensures Valid() && n == Min(|bytes|, buffer.Length - |old(data)|) && data == old(data) + bytes[..n]
      ensures readIndex == old(readIndex) && readMirror == old(readMirror)
    {
      hide Look, Turn, Written;
      DataLenIs();
      var space := buffer.Length - DataLen();
      if space == 0 {
        return 0;
      }
      n := Min(|bytes|, space);
      ghost var before, w, wm := buffer[..], writeIndex, writeMirror;
      Store(bytes[..n]);
      StillApart(buffer.Length, readIndex, readMirror, w, wm, |data|, n, readIndex, readMirror, writeIndex,
        writeMirror);
      Forced(before, buffer[..], readIndex, w, data, bytes[..n], bytes[..n], readIndex);
      data := data + bytes[..n];
    }

    /** rt_ringbuffer_get: the oldest bytes are removed. */
    method Get(length: nat) returns (bytes: seq<Byte>)
      requires Valid()
      modifies this
      ensures Valid() && |bytes| == Min(length, |old(data)|) && bytes + data == old(data)
    {
      hide Look, Newest;
      DataLenIs();
      var size := DataLen();
      if size == 0 {
        return [];
      }
      var n := Min(length, size);
      ghost var r, rm := readIndex, readMirror;
      ReadIs(buffer[..], r, data, n);
      RestIs(buffer[..], r, data, n);
      if buffer.Length - readIndex > n {
        bytes := buffer[readIndex..readIndex + n];
        readIndex := readIndex + n;
      } else {
        var room := buffer.Length - readIndex;
        bytes := buffer[readIndex..] + buffer[..n - room];
        readMirror := !readMirror;
        readIndex := n - room;
      }
      assert bytes == Read(buffer[..], r, n);
      ApartRead(buffer.Length, r, rm, writeIndex, writeMirror, |data|, n, readIndex, readMirror);
      assert data[..n] + data[n..] == data;
      data := data[n..];
    }

    method PutChar(ch: Byte) returns (n: nat)
      requires Valid()
      modifies this, buffer
      ensures Valid()
      ensures if |old(data)| < buffer.Length then n == 1 && data == old(data) + [ch] else n == 0 && data == old(data)
    {
      hide Look, Written;
      DataLenIs();
      if buffer.Length - DataLen() == 0 {
        return 0;
      }
      ghost var before, w, wm := buffer[..], writeIndex, writeMirror;
      WrittenOne(before, w, ch);
      buffer[writeIndex] := ch;
      if writeIndex == buffer.Length - 1 {
        writeMirror := !writeMirror;
        writeIndex := 0;
      } else {
        writeIndex := writeIndex + 1;
      }
      StillApart(buffer.Length, readIndex, readMirror, w, wm, |data|, 1, readIndex, readMirror, writeIndex,
        writeMirror);
      Forced(before, buffer[..], readIndex, w, data, [ch], [ch], readIndex);
      data := data + [ch];
      return 1;
    }

    /** rt_ringbuffer_putchar_force: a full ring loses its oldest byte. */
    method PutCharForce(ch: Byte)
      requires Valid() && buffer.Length > 0
      modifies this, buffer
      ensures Valid() && data == Newest(old(data) + [ch], buffer.Length)
    {
      hide Look, Written;
      DataLenIs();
      var oldState := Status();
      ghost var before, r, rm, w, wm := buffer[..], readIndex, readMirror, writeIndex, writeMirror;
      WrittenOne(before, w, ch);
      buffer[writeIndex] := ch;
      if writeIndex == buffer.Length - 1 {
        writeMirror := !writeMirror;
        writeIndex := 0;
        if oldState == Full {
          readMirror := !readMirror;
          readIndex := writeIndex;
        }
      } else {
        writeIndex := writeIndex + 1;
        if oldState == Full {
          readIndex := writeIndex;
        }
      }
      StillApart(buffer.Length, r, rm, w, wm, |data|, 1, readIndex, readMirror, writeIndex, writeMirror);
      Forced(before, buffer[..], r, w, data, [ch], [ch], readIndex);
      data := Newest(data + [ch], buffer.Length);
    }

    /** The write passes the read position and wraps while both are still in the same mirror. */
    predicate Loses(length: nat)
      reads `readMirror, `readIndex, `writeMirror, `writeIndex
    {
      var n := Min(length, buffer.Length);
      n > buffer.Length - DataLen() && writeIndex + n >= buffer.Length && readMirror == writeMirror
    }

    /** rt_ringbuffer_put_force: keeps the newest bytes, except that toggling both mirrors when the read
        position has not wrapped leaves the ring empty instead of full. */
    method PutForce(bytes: seq<Byte>) returns (n: nat)
      requires Valid() && buffer.Length > 0
      modifies this, buffer
      ensures Valid() && n == Min(|bytes|, buffer.Length)
      ensures data == if old(Loses(|bytes|)) then [] else Newest(old(data) + bytes, buffer.Length)
      ensures data == Newest(old(data) + bytes, buffer.Length) <==> !old(Loses(|bytes|))
    {
      hide Look, Turn, Written;
      DataLenIs();
      var kept := Newest(bytes, buffer.Length);
      n := |kept|;
      ghost var before, w, r, all := buffer[..], writeIndex, readIndex, Newest(data + bytes, buffer.Length);
      ghost var loses := Loses(|bytes|);
      NewestLength(data, bytes, buffer.Length);
      Overwrite(kept);
      if !loses {
        Forced(before, buffer[..], r, w, data, bytes, kept, readIndex);
      }
      data := if loses then [] else all;
    }

    method Overwrite(kept: seq<Byte>)
      requires Positions() && |kept| <= buffer.Length && 0 < buffer.Length
      modifies `readMirror, `readIndex, `writeMirror, `writeIndex, buffer
      ensures Written(old(buffer[..]), buffer[..], old(writeIndex), kept)
      ensures old(writeIndex) == Turn(buffer.Length, old(readIndex) + |data|)
      ensures readIndex == if |data| + |kept| > buffer.Length then Turn(buffer.Length, old(writeIndex) + |kept|)
              else old(readIndex)
      ensures Apart(buffer.Length, readIndex, readMirror, writeIndex, writeMirror,
                    if old(Loses(|kept|)) then 0 else Min(|data| + |kept|, buffer.Length))
    {
      hide Look, Written;
      DataLenIs();
      ghost var r, rm, w, wm := readIndex, readMirror, writeIndex, writeMirror;
      var space := buffer.Length - DataLen();
      var around := writeIndex + |kept| >= buffer.Length;
      Store(kept);
      if |kept| > space {
        if around {
          readMirror := !readMirror;
        }
        readIndex := writeIndex;
      }
      StillApart(buffer.Length, r, rm, w, wm, |data|, |kept|, readIndex, readMirror, writeIndex, writeMirror);
    }

    method GetChar() returns (n: nat, ch: Byte)
      requires Valid()
      modifies this
      ensures Valid()
      ensures if old(data) == [] then n == 0 && data == [] else n == 1 && [ch] + data == old(data)
    {
      DataLenIs();
      if DataLen() == 0 {
        return 0, 0;
      }
      ch := buffer[readIndex];
      if readIndex == buffer.Length - 1 {
        readMirror := !readMirror;
        readIndex := 0;
      } else {
        readIndex := readIndex + 1;
      }
      data := data[1..];
      return 1, ch;
    }
  }

  /** Four bytes forced into a ring of four that holds one leave it empty. */
  method LosesAll() returns (r: RingBuffer)
    ensures fresh(r) && r.Valid() && r.buffer.Length == 4 && r.data == []
  {
    hide Look, Written, Newest;
    r := new RingBuffer(4);
    var n := r.Put([1]);
    r.DataLenIs();
    n := r.PutForce([2, 3, 4, 5]);
  }
}

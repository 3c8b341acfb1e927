/** The receive FIFO of a serial port, filled by DMA without regard to what has been read. */
module SerialFifos {
  import opened RingBuffers

  lemma ModOnce(x: nat, n: nat)
    requires n <= x < 2 * n
    ensures x % n == x - n
  {
    ModShift(x - n, n);
  }

  lemma ModShift(y: nat, n: nat)
    requires y < n
    ensures (y + n) % n == y
  {
  }

  lemma TurnTwice(size: nat, g: nat, u: nat, n: nat)
    requires g < size && n <= u <= size
    ensures Turn(size, g + n) < size && Turn(size, Turn(size, g + n) + (u - n)) == Turn(size, g + u)
  {
  }

  /** The put index after `k` more bytes, seen from the get index. */
  lemma TurnOn(size: nat, g: nat, u: nat, k: nat)
    requires g < size && u <= size && k <= size
    ensures u + k <= size ==> Turn(size, Turn(size, g + u) + k) == Turn(size, g + (u + k))
    ensures var p := Turn(size, Turn(size, g + u) + k); Turn(size, p + size) == p
  {
  }

  lemma FrontIs(ring: seq<Byte>, position: nat, stored: seq<Byte>, bytes: seq<Byte>)
    requires position < |ring| && |bytes| <= |stored| <= |ring|
    requires forall i :: 0 <= i < |stored| ==> stored[i] == Look(ring, position, i)
    requires forall i :: 0 <= i < |bytes| ==> bytes[i] == Look(ring, position, i)
    ensures bytes + stored[|bytes|..] == stored
  {
  }

  class SerialFifo {
    const buffer: array<Byte>
    var putIndex: nat
    var getIndex: nat
    var isFull: bool
    ghost var unread: seq<Byte>       // oldest first

    ghost predicate Positions()
      reads `putIndex, `getIndex, `isFull, `unread
    {
      && 0 < buffer.Length && getIndex < buffer.Length && |unread| <= buffer.Length
      && putIndex == Turn(buffer.Length, getIndex + |unread|)
      && (isFull <==> |unread| == buffer.Length)
    }

    ghost predicate Valid()
      reads this, buffer
    {
      Positions() && forall i :: 0 <= i < |unread| ==> unread[i] == Look(buffer[..], getIndex, i)
    }

    constructor (bufsz: nat)
      requires bufsz > 0
      ensures Valid() && unread == [] && buffer.Length == bufsz
    {
      buffer := new Byte[bufsz](i => 0);
      putIndex, getIndex, isFull, unread := 0, 0, false, [];
    }

    /** _serial_fifo_calc_recved_len. */
    function ReceivedLen(): int
      reads `putIndex, `getIndex, `isFull
    {
      if putIndex == getIndex then (if isFull then buffer.Length else 0)
      else if putIndex > getIndex then putIndex - getIndex
      else buffer.Length - (getIndex - putIndex)
    }

    lemma ReceivedLenIs()
      requires Positions()
      ensures ReceivedLen() == |unread| && (isFull ==> putIndex == getIndex)
    {
    }

    /** The DMA engine writes on from the put index, going around. */
    method Transfer(bytes: seq<Byte>)
      requires putIndex < buffer.Length && |bytes| <= buffer.Length
      modifies buffer
      ensures Written(old(buffer[..]), buffer[..], putIndex, bytes)
    {
      for k := 0 to |bytes|
        invariant Written(old(buffer[..]), buffer[..], putIndex, bytes[..k])
      {
        assert bytes[..k + 1] == bytes[..k] + [bytes[k]];
        buffer[Turn(buffer.Length, putIndex + k)] := bytes[k];
      }
      assert bytes[..|bytes|] == bytes;
    }

    /** rt_dma_recv_update_put_index. */
    method UpdatePutIndex(len: nat)
      requires Positions() && len <= buffer.Length
      modifies `putIndex, `getIndex, `isFull
      ensures putIndex == Turn(buffer.Length, old(putIndex) + len)
      ensures getIndex == if |unread| + len > buffer.Length then putIndex else old(getIndex)
      ensures isFull <==> |unread| + len >= buffer.Length
    {
      if getIndex <= putIndex {
        putIndex := putIndex + len;
        if putIndex >= buffer.Length {
          ModOnce(putIndex, buffer.Length);
          putIndex := putIndex % buffer.Length;
          if putIndex >= getIndex {
            isFull := true;
          }
        }
      } else {
        putIndex := putIndex + len;
        if putIndex >= getIndex {
          if putIndex >= buffer.Length {
            ModOnce(putIndex, buffer.Length);
            putIndex := putIndex % buffer.Length;
          }
          isFull := true;
        }
      }
      if isFull {
        getIndex := putIndex;
      }
    }

    /** A finished DMA transfer: what was not read and no longer fits is overwritten, oldest first. */
    method Arrive(bytes: seq<Byte>)
      requires Valid() && |bytes| <= buffer.Length
      modifies this, buffer
      ensures Valid() && unread == Newest(old(unread) + bytes, buffer.Length)
      ensures ReceivedLen() == Min(buffer.Length, |old(unread)| + |bytes|)
    {
      hide Look, Turn, Written, Newest;
      ghost var before, w, r := buffer[..], putIndex, getIndex;
      TurnOn(buffer.Length, r, |unread|, |bytes|);
      WholeNewest(bytes, buffer.Length);
      NewestLength(unread, bytes, buffer.Length);
      Transfer(bytes);
      UpdatePutIndex(|bytes|);
      Forced(before, buffer[..], r, w, unread, bytes, bytes, getIndex);
      unread := Newest(unread + bytes, buffer.Length);
      ReceivedLenIs();
    }

    /** rt_dma_recv_update_get_index. */
    method UpdateGetIndex(len: nat)
      requires Positions() && len <= |unread|
      modifies `getIndex, `isFull
      ensures getIndex == Turn(buffer.Length, old(getIndex) + len)
      ensures isFull == (old(isFull) && len == 0)
    {
      if isFull && len != 0 {
        isFull := false;
      }
      getIndex := getIndex + len;
      if getIndex >= buffer.Length {
        ModOnce(getIndex, buffer.Length);
        getIndex := getIndex % buffer.Length;
      }
    }

    /** The two copies out of the FIFO. */
    method Copied(n: nat) returns (bytes: seq<Byte>)
      requires getIndex < buffer.Length && n <= buffer.Length
      ensures |bytes| == n && forall i :: 0 <= i < n ==> bytes[i] == Look(buffer[..], getIndex, i)
    {
      if getIndex + n < buffer.Length {
        bytes := buffer[getIndex..getIndex + n];
      } else {
        bytes := buffer[getIndex..] + buffer[..n + getIndex - buffer.Length];
      }
    }

    /** _serial_dma_rx: the oldest unread bytes, with the get index moved behind them. */
    method Receive(length: nat) returns (bytes: seq<Byte>)
      requires Valid()
      modifies `getIndex, `isFull, `unread
      ensures Valid() && |bytes| == Min(length, |old(unread)|) && bytes + unread == old(unread)
    {
      hide Look, Turn;
      ReceivedLenIs();
      var n := if length < ReceivedLen() then length else ReceivedLen();
      TurnTwice(buffer.Length, getIndex, |unread|, n);
      RestIs(buffer[..], getIndex, unread, n);
      bytes := Copied(n);
      FrontIs(buffer[..], getIndex, unread, bytes);
      UpdateGetIndex(n);
      unread := unread[n..];
    }
  }
}

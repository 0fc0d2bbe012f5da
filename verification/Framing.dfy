/** Length-prefixed packets on a stream, section 4.2.2 of RFC 1035. */
module Framing {
  import opened Common

  type Bytes = seq<byte>

  const MIN_PACKET := 17

  datatype ReadError = Closed | TooLarge | TooShort

  method PrefixWithSize(packet: Bytes) returns (r: Option<Bytes>)
    ensures r == if |packet| > 0xffff then None else Some(PutUint16(|packet|) + packet)
  {
    if |packet| > 0xffff {
      return None;
    }
    var buf := new byte[|packet| + 2](i => if 0 <= i < |packet| then packet[i] else 0);
    forall i | 0 <= i < |packet| {
      buf[i + 2] := buf[i];
    }
    var size := PutUint16(|packet|);
    buf[0], buf[1] := size[0], size[1];
    assert buf[..] == size + packet;
    return Some(buf[..]);
  }

  /** The packet at the start of what a stream delivers before it ends or fails. */
  function FirstPacket(stream: Bytes): Result<Bytes, ReadError> {
    if |stream| < 2 then Err(Closed)
    else
      var size := Uint16(stream[..2]);
      if size > MAX_PACKET - 1 then Err(TooLarge)
      else if size < MIN_PACKET then Err(TooShort)
      else if |stream| < 2 + size then Err(Closed)
      else Ok(stream[2..2 + size])
  }

  /**
    A connection: what it still delivers before it ends or fails, how many more
    reads give nothing, and bytes that come with the error. However a read cuts
    what is delivered, it is one of the outcomes here.
   */
  class Conn {
    var data: Bytes
    var stalls: nat
    var lost: Bytes

    method Read(buf: array<byte>, pos: nat) returns (n: nat, ok: bool)
      requires pos < buf.Length
      modifies this, buf
      ensures !ok ==> data == old(data) == []
      ensures ok ==> n <= |old(data)| && pos + n <= buf.Length && data == old(data)[n..]
      ensures ok ==> buf[..pos + n] == old(buf[..pos]) + old(data)[..n]
      ensures ok ==> stalls <= old(stalls) && (n == 0 ==> stalls < old(stalls))
    {
      var stalled: bool := *;
      if stalled && stalls > 0 {
        stalls := stalls - 1;
        return 0, true;
      }
      var from := if data == [] then lost else data;
      var most := Min(|from|, buf.Length - pos);
      n :| 0 <= n <= most && (data != [] ==> n > 0);
      forall i | 0 <= i < n {
        buf[pos + i] := from[i];
      }
      if data == [] {
        lost := lost[n..];
        return n, false;
      }
      data := data[n..];
      return n, true;
    }
  }

  lemma ReadOn(stream: Bytes, pos: nat, n: nat)
    requires pos + n <= |stream|
    ensures stream[..pos + n] == stream[..pos] + stream[pos..][..n] && stream[pos..][n..] == stream[pos + n..]
  {
  }

  /** What starts alike is alike in between. */
  lemma Agree(a: Bytes, b: Bytes, pos: nat, low: nat, high: nat)
    requires low <= high <= pos && pos <= |a| && pos <= |b| && a[..pos] == b[..pos]
    ensures a[low..high] == b[low..high]
  {
    assert a[low..high] == a[..pos][low..high] && b[low..high] == b[..pos][low..high];
  }

  method ReadPrefixed(conn: Conn) returns (r: Result<Bytes, ReadError>)
    modifies conn
    ensures r == FirstPacket(old(conn.data))
    ensures exists n :: 0 <= n <= 2 + MAX_PACKET && n <= |old(conn.data)| && conn.data == old(conn.data)[n..]
  {
    var buf := new byte[2 + MAX_PACKET](_ => 0);
    var packetLength, pos := -1, 0;
    ghost var stream := conn.data;
    while true
      invariant 0 <= pos <= |stream| && pos <= buf.Length && fresh(buf)
      invariant conn.data == stream[pos..] && buf[..pos] == stream[..pos]
      invariant packetLength < 0 ==> packetLength == -1 && pos < 2
      invariant packetLength >= 0 ==> MIN_PACKET <= packetLength < MAX_PACKET && pos < 2 + packetLength
      invariant packetLength >= 0 ==> |stream| >= 2 && packetLength == Uint16(stream[..2])
      decreases |stream| - pos, conn.stalls
    {
      var readnb, ok := conn.Read(buf, pos);
      if !ok {
        return Err(Closed);
      }
      ReadOn(stream, pos, readnb);
      pos := pos + readnb;
      if pos >= 2 && packetLength < 0 {
        Agree(buf[..], stream, pos, 0, 2);
        packetLength := Uint16(buf[..2]);
        if packetLength > MAX_PACKET - 1 {
          return Err(TooLarge);
        }
        if packetLength < MIN_PACKET {
          return Err(TooShort);
        }
      }
      if packetLength >= 0 && pos >= 2 + packetLength {
        Agree(buf[..], stream, pos, 2, 2 + packetLength);
        return Ok(buf[2..2 + packetLength]);
      }
    }
  }

  /** What is read back of a framed packet, whatever follows it: the packet, exactly when it has 17 to 4095 bytes. */
  lemma FramedPacketReadsBack(packet: Bytes, rest: Bytes)
    requires |packet| <= 0xffff
    ensures FirstPacket(PutUint16(|packet|) + packet + rest) ==
      if |packet| < 17 then Err(TooShort) else if |packet| > 4095 then Err(TooLarge) else Ok(packet)
  {
  }

  /** Once the bytes delivered decide the result, those that come with the error do not matter. */
  lemma LaterBytesDoNotMatter(delivered: Bytes, lost: Bytes)
    ensures FirstPacket(delivered) == FirstPacket(delivered + lost) || FirstPacket(delivered) == Err(Closed)
  {
    if |delivered| >= 2 {
      var all, size := delivered + lost, Uint16(delivered[..2]);
      assert all[..2] == delivered[..2];
      assert |delivered| >= 2 + size ==> all[2..2 + size] == delivered[2..2 + size];
    }
  }

  /** A framed packet cut short is never taken for a packet, even if its last bytes come with the error. */
  lemma TruncatedPacketIsRefused(packet: Bytes, n: nat)
    requires |packet| <= 0xffff && n < 2 + |packet|
    ensures FirstPacket((PutUint16(|packet|) + packet)[..n]) ==
      Err(if n < 2 || 17 <= |packet| <= 4095 then Closed else if |packet| < 17 then TooShort else TooLarge)
  {
  }

  /** Writing a packet and reading it over a connection, however the stream is cut. */
  method RoundTrip(packet: Bytes, rest: Bytes, conn: Conn) returns (r: Result<Bytes, ReadError>)
    requires MIN_PACKET <= |packet| < MAX_PACKET
    modifies conn
    ensures r == Ok(packet)
  {
    var framed := PrefixWithSize(packet);
    conn.data := framed.value + rest;
    FramedPacketReadsBack(packet, rest);
    r := ReadPrefixed(conn);
  }
}

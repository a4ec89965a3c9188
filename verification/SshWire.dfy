/** ssh-agent messages over a transport that sends and receives as little as it likes
    (src/provablyfine/ssh/wire.py). */
module SshWire {
  import opened Wrappers
  import opened Bytes
  import opened SshBuffer

  const MAX_MESSAGE_LENGTH := 256 * 1024
  const RECV_CHUNK_SIZE := 64 * 1024

  datatype Message = Message(kind: Byte, contents: seq<Byte>)

  datatype WireError = PeerClosed | EmptyMessage | FrameTooLarge

  // ---- Frames ----

  lemma LengthPrefixIsWideEnough()
    ensures Pow256(4) == 0x1_0000_0000
  {
    assert Pow256(4) == 256 * Pow256(3) && Pow256(3) == 256 * Pow256(2);
    assert Pow256(2) == 256 * Pow256(1) && Pow256(1) == 256 * Pow256(0);
  }

  /** The length prefix counts the type byte. */
  function Frame(m: Message): seq<Byte>
    requires |m.contents| + 1 < 0x1_0000_0000
  {
    LengthPrefixIsWideEnough();
    ToBigEndian(|m.contents| + 1, 4) + [m.kind] + m.contents
  }

  /** What is read from these bytes, and what is left of them. */
  function Parse(s: seq<Byte>): (Result<Message, WireError>, seq<Byte>) {
    if |s| < 4 then (Err(PeerClosed), [])
    else
      var length := FromBigEndian(s[..4]);
      if length == 0 then (Err(EmptyMessage), s[4..])
      else if length > MAX_MESSAGE_LENGTH then (Err(FrameTooLarge), s[4..])
      else if |s| - 4 < length then (Err(PeerClosed), [])
      else (Ok(Message(s[4], s[5..4 + length])), s[4 + length..])
  }

  /** A frame is received as it was sent, up to its last byte, exactly when it is within the limit. */
  lemma FrameRoundTripIff(m: Message, rest: seq<Byte>)
    requires |m.contents| + 1 < 0x1_0000_0000
    ensures Parse(Frame(m) + rest) == (Ok(m), rest) <==> |m.contents| <= 262143
    ensures |m.contents| > 262143 ==> Parse(Frame(m) + rest).0 == Err(FrameTooLarge)
  {
    LengthPrefixIsWideEnough();
    var prefix := ToBigEndian(|m.contents| + 1, 4);
    var s := Frame(m) + rest;
    FromTo(|m.contents| + 1, 4);
    assert s[..4] == prefix;
    assert s[4] == m.kind;
    assert s[5..5 + |m.contents|] == m.contents;
    assert s[5 + |m.contents|..] == rest;
  }

  /** What a frame looks like: four bytes of length, the most significant one first, the type, and the contents. */
  lemma FrameBytes(m: Message, a: Byte, b: Byte, c: Byte, d: Byte)
    requires |m.contents| + 1 < 0x1_0000_0000
    ensures Frame(m) == [a, b, c, d, m.kind] + m.contents <==>
            |m.contents| + 1 == a * 0x100_0000 + b * 0x1_0000 + c * 0x100 + d
  {
    LengthPrefixIsWideEnough();
    Uint32Bytes(|m.contents| + 1, a, b, c, d);
    assert [a, b, c, d, m.kind] + m.contents == [a, b, c, d] + ([m.kind] + m.contents);
    SamePrefix(ToBigEndian(|m.contents| + 1, 4), [a, b, c, d], [m.kind] + m.contents);
    assert Frame(m) == ToBigEndian(|m.contents| + 1, 4) + ([m.kind] + m.contents);
  }

  /** What is received from any bytes at all, and when it is refused. */
  lemma ReceivedIs(a: Byte, b: Byte, c: Byte, d: Byte, s: seq<Byte>)
    ensures var length := a * 0x100_0000 + b * 0x1_0000 + c * 0x100 + d;
            Parse([a, b, c, d] + s) ==
            if length == 0 then (Err(EmptyMessage), s)
            else if length > 262144 then (Err(FrameTooLarge), s)
            else if |s| < length then (Err(PeerClosed), [])
            else (Ok(Message(s[0], s[1..length])), s[length..])
    ensures |s| < 4 ==> Parse(s) == (Err(PeerClosed), [])
  {
    FourBytes(a, b, c, d);
    var all, length := [a, b, c, d] + s, a * 0x100_0000 + b * 0x1_0000 + c * 0x100 + d;
    assert all[..4] == [a, b, c, d] && all[4..] == s;
    if 0 < length <= 262144 && length <= |s| {
      assert all[4] == s[0] && all[5..4 + length] == s[1..length] && all[4 + length..] == s[length..];
    }
  }

  function Frames(ms: seq<Message>): seq<Byte>
    requires forall m :: m in ms ==> |m.contents| + 1 < 0x1_0000_0000
  {
    if ms == [] then [] else Frame(ms[0]) + Frames(ms[1..])
  }

  /** The results of this many receives, one after the other. */
  function ParseMany(s: seq<Byte>, count: nat): (seq<Result<Message, WireError>>, seq<Byte>)
    decreases count
  {
    if count == 0 then ([], s)
    else
      var (first, rest) := Parse(s);
      var (others, left) := ParseMany(rest, count - 1);
      ([first] + others, left)
  }

  lemma {:induction false} FramesRoundTrip(ms: seq<Message>, rest: seq<Byte>)
    requires forall m :: m in ms ==> |m.contents| <= MAX_MESSAGE_LENGTH - 1
    ensures var (received, left) := ParseMany(Frames(ms) + rest, |ms|);
            |received| == |ms| && (forall i :: 0 <= i < |ms| ==> received[i] == Ok(ms[i])) && left == rest
  {
    if ms == [] {
      assert [] + rest == rest;
    } else {
      assert Frames(ms) + rest == Frame(ms[0]) + (Frames(ms[1..]) + rest);
      FrameRoundTripIff(ms[0], Frames(ms[1..]) + rest);
      FramesRoundTrip(ms[1..], rest);
    }
  }

  // ---- The code ----

  /** A connected peer. `incoming` is what it will ever send, `outgoing` what it has been sent.
      A peer that may refuse can stop taking bytes at any time. */
  class Transport {
    const mayRefuse: bool
    var incoming: seq<Byte>
    var outgoing: seq<Byte>

    constructor (incoming: seq<Byte>, mayRefuse: bool)
      ensures this.incoming == incoming && outgoing == [] && this.mayRefuse == mayRefuse
    {
      this.incoming, outgoing, this.mayRefuse := incoming, [], mayRefuse;
    }

    /** Any positive number of bytes, up to `size`. None at all once the peer is gone. */
    method Recv(size: int) returns (data: seq<Byte>)
      requires 0 < size <= 65536
      modifies this`incoming
      ensures |data| <= size && old(incoming) == data + incoming
      ensures data == [] <==> old(incoming) == []
    {
      if incoming == [] {
        return [];
      }
      var n :| 1 <= n <= size && n <= |incoming|;
      data := incoming[..n];
      incoming := incoming[n..];
    }

    /** Any number of bytes. Nothing at all means that the peer takes no more. */
    method Send(data: seq<Byte>) returns (sent: nat)
      requires data != []
      modifies this`outgoing
      ensures sent <= |data| && outgoing == old(outgoing) + data[..sent]
      ensures !mayRefuse ==> sent > 0
    {
      sent :| 0 <= sent <= |data| && (!mayRefuse ==> sent > 0);
      outgoing := outgoing + data[..sent];
    }
  }

  class WireSocket {
    const sock: Transport

    constructor (sock: Transport)
      ensures this.sock == sock
    {
      this.sock := sock;
    }

    method RecvBytes(n: nat) returns (r: Option<seq<Byte>>)
      modifies sock`incoming
      ensures n <= |old(sock.incoming)| ==>
                r == Some(old(sock.incoming)[..n]) && sock.incoming == old(sock.incoming)[n..]
      ensures n > |old(sock.incoming)| ==> r == None && sock.incoming == []
    {
      var remaining: int := n;
      var data: seq<Byte> := [];
      while remaining > 0
        invariant 0 <= remaining <= n && |data| == n - remaining
        invariant old(sock.incoming) == data + sock.incoming
      {
        var partial := sock.Recv(if remaining < RECV_CHUNK_SIZE then remaining else RECV_CHUNK_SIZE);
        if |partial| == 0 {
          return None;
        }
        remaining := remaining - |partial|;
        data := data + partial;
      }
      r := Some(data);
    }

    method RecvMessage() returns (r: Result<Message, WireError>)
      modifies sock`incoming
      ensures (r, sock.incoming) == Parse(old(sock.incoming))
    {
      ghost var s := sock.incoming;
      var length := RecvBytes(4);
      if length.None? {
        return Err(PeerClosed);
      }
      var n := FromBigEndian(length.value);
      if n == 0 {
        return Err(EmptyMessage);
      }
      if n > MAX_MESSAGE_LENGTH {
        return Err(FrameTooLarge);
      }
      var payload := RecvBytes(n);
      if payload.None? {
        return Err(PeerClosed);
      }
      assert payload.value == s[4..][..n] == s[4..4 + n];
      assert s[4..][n..] == s[4 + n..];
      r := Ok(Message(payload.value[0], payload.value[1..]));
    }

    /** Without an error the peer has got the whole frame, and otherwise a part of it. */
    method SendMessage(m: Message) returns (ok: bool)
      modifies sock`outgoing
      ensures |m.contents| + 1 >= 0x1_0000_0000 ==> !ok && sock.outgoing == old(sock.outgoing)
      ensures |m.contents| + 1 < 0x1_0000_0000 && !sock.mayRefuse ==> ok
      ensures |m.contents| + 1 < 0x1_0000_0000 ==>
                if ok then sock.outgoing == old(sock.outgoing) + Frame(m)
                else exists n :: 0 <= n < |Frame(m)| && sock.outgoing == old(sock.outgoing) + Frame(m)[..n]
    {
      LengthPrefixIsWideEnough();
      var writer := new Writer();
      ok := writer.WriteUint32(|m.contents| + 1);
      if !ok {
        return;
      }
      var typed := writer.WriteByte(m.kind);
      writer.WriteBytes(m.contents);
      var data := writer.bytes;
      assert data == Frame(m);
      var sentTotal := 0;
      while sentTotal < |data|
        invariant 0 <= sentTotal <= |data|
        invariant sock.outgoing == old(sock.outgoing) + data[..sentTotal]
      {
        var sent := sock.Send(data[sentTotal..]);
        assert data[..sentTotal] + data[sentTotal..][..sent] == data[..sentTotal + sent];
        if sent == 0 {
          return false;
        }
        sentTotal := sentTotal + sent;
      }
      assert data[..|data|] == data;
    }
  }

  /** Whatever the transport does with it, a message that was sent without an error is received as it was. */
  method Exchange(there: WireSocket, back: WireSocket, m: Message) returns (sent: bool, r: Result<Message, WireError>)
    requires there.sock != back.sock
    requires there.sock.outgoing == [] && |m.contents| <= MAX_MESSAGE_LENGTH - 1
    modifies there.sock, back.sock
    ensures sent ==> r == Ok(m) && back.sock.incoming == []
    ensures !there.sock.mayRefuse ==> sent
  {
    sent := there.SendMessage(m);
    back.sock.incoming := there.sock.outgoing;
    r := back.RecvMessage();
    FrameRoundTripIff(m, []);
    if sent {
      assert [] + Frame(m) == Frame(m) + [];
    }
  }
}

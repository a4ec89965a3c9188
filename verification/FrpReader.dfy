/** The reader of a bastion tunnel: frames first, then raw bytes, over chunks of any size
    (src/provablyfine/bastion_visitor.py:59-122). */
module FrpReading {
  import opened Wrappers
  import opened Bytes
  import opened Sequences

  /** A stream cipher gives the plain bytes of a chunk from the chunks before it. None means no cipher. */
  type Cipher = Option<(seq<seq<Byte>>, seq<Byte>) -> seq<Byte>>

  function Decrypt(cipher: Cipher, before: seq<seq<Byte>>, chunk: seq<Byte>): seq<Byte> {
    if cipher.None? then chunk else cipher.value(before, chunk)
  }

  function DecryptAll(cipher: Cipher, before: seq<seq<Byte>>, chunks: seq<seq<Byte>>): seq<Byte>
    decreases |chunks|
  {
    if chunks == [] then []
    else Decrypt(cipher, before, chunks[0]) + DecryptAll(cipher, before + [chunks[0]], chunks[1..])
  }

  /** Each chunk is decrypted after all the chunks before it, and what that gives is put behind what they gave. */
  lemma {:induction false} DecryptNext(cipher: Cipher, before: seq<seq<Byte>>, chunks: seq<seq<Byte>>, chunk: seq<Byte>)
    ensures DecryptAll(cipher, before, chunks + [chunk]) ==
            DecryptAll(cipher, before, chunks) +
            if cipher.None? then chunk else cipher.value(before + chunks, chunk)
    decreases |chunks|
  {
    if chunks == [] {
      assert before + [] == before && ([] + [chunk])[1..] == [];
    } else {
      assert (chunks + [chunk])[1..] == chunks[1..] + [chunk];
      DecryptNext(cipher, before + [chunks[0]], chunks[1..], chunk);
      assert before + [chunks[0]] + chunks[1..] == before + chunks;
    }
  }

  // ---- Frames ----

  datatype FrameError = ConnectionClosed | InvalidJson

  const HEADER_LENGTH := 9

  function EncodeFrame(tag: char, data: seq<Byte>): Option<seq<Byte>> {
    if tag as int < 256 && |data| < Pow256(8)
    then Some([tag as int] + ToBigEndian(|data|, 8) + data)
    else None
  }

  /** What a frame looks like: the tag, eight bytes of length, the most significant one first, and the data. */
  lemma FrameBytes(tag: char, data: seq<Byte>)
    ensures EncodeFrame(tag, data).Some? <==> tag as int < 256 && |data| < 0x1_0000_0000_0000_0000
    ensures EncodeFrame(tag, data).Some? ==>
              var s := EncodeFrame(tag, data).value;
              |s| == 9 + |data| && s[0] == tag as int && FromBigEndian(s[1..9]) == |data| && s[9..] == data
  {
    assert Pow256(4) == 0x1_0000_0000 by {
      assert Pow256(1) == 256 && Pow256(2) == 0x1_0000 && Pow256(3) == 0x100_0000;
    }
    assert Pow256(6) == 0x1_0000_0000_0000 && Pow256(8) == 0x1_0000_0000_0000_0000;
    if EncodeFrame(tag, data).Some? {
      var length := ToBigEndian(|data|, 8);
      FromTo(|data|, 8);
      FrameParts([tag as int], length, data, []);
      assert [tag as int] + length + data + [] == EncodeFrame(tag, data).value && data + [] == data;
    }
  }

  /** One frame from the front of these bytes, and what is left of them. */
  function ParseFrame<P>(s: seq<Byte>, loads: seq<Byte> -> Option<P>): (Result<(char, P), FrameError>, seq<Byte>) {
    if |s| < HEADER_LENGTH then (Err(ConnectionClosed), s)
    else
      var length := FromBigEndian(s[1..HEADER_LENGTH]);
      var rest := s[HEADER_LENGTH..];
      if |rest| < length then (Err(ConnectionClosed), rest)
      else
        match loads(rest[..length])
        case None => (Err(InvalidJson), rest[length..])
        case Some(payload) => (Ok((s[0] as char, payload)), rest[length..])
  }

  lemma FrameParts(tag: seq<Byte>, length: seq<Byte>, data: seq<Byte>, rest: seq<Byte>)
    requires |tag| == 1 && |length| == 8
    ensures var s := tag + length + data + rest;
            s[0] == tag[0] && s[1..9] == length && s[9..] == data + rest
  {
  }

  /** Reading undoes encoding, and leaves the bytes that follow for the raw connection. */
  lemma FrameRoundTrip<P(!new)>(
    tag: char, payload: P, rest: seq<Byte>, dumps: P -> seq<Byte>, loads: seq<Byte> -> Option<P>)
    requires forall p :: loads(dumps(p)) == Some(p)
    requires EncodeFrame(tag, dumps(payload)).Some?
    ensures ParseFrame(EncodeFrame(tag, dumps(payload)).value + rest, loads) == (Ok((tag, payload)), rest)
  {
    var data := dumps(payload);
    var s := EncodeFrame(tag, data).value + rest;
    FromTo(|data|, 8);
    FrameParts([tag as int], ToBigEndian(|data|, 8), data, rest);
    assert (data + rest)[..|data|] == data && (data + rest)[|data|..] == rest;
  }

  // ---- The code ----

  /** What the peer will ever send, in the chunks in which it arrives. An empty read means that it is gone. */
  class Source {
    var chunks: seq<seq<Byte>>

    constructor (chunks: seq<seq<Byte>>)
      ensures this.chunks == chunks
    {
      this.chunks := chunks;
    }

    method Recv() returns (data: seq<Byte>)
      modifies this
      ensures if old(chunks) == [] then data == [] && chunks == []
              else data == old(chunks)[0] && chunks == old(chunks)[1..]
      ensures forall chunk :: chunk in chunks ==> chunk in old(chunks)
    {
      data := [];
      if chunks != [] {
        data := chunks[0];
        chunks := chunks[1..];
      }
    }
  }

  class FrpReader {
    const source: Source
    const cipher: Cipher
    var buf: seq<Byte>
    var received: seq<seq<Byte>>        // the chunks that the cipher has seen, which are its state
    ghost var returned: seq<Byte>       // the bytes that were given out
    ghost const stream: seq<Byte>       // the plain bytes of the whole connection

    ghost function Pending(): seq<Byte>
      reads this, source
    {
      buf + DecryptAll(cipher, received, source.chunks)
    }

    /** Whatever was read so far and however, it is the beginning of the stream, and the rest is still to come. */
    ghost predicate Valid()
      reads this, source
    {
      && returned + Pending() == stream
      && (forall chunk :: chunk in source.chunks ==> chunk != [])
      && (cipher.Some? ==> forall before :: cipher.value(before, []) == [])
    }

    constructor (source: Source, cipher: Cipher)
      requires forall chunk :: chunk in source.chunks ==> chunk != []
      requires cipher.Some? ==> forall before :: cipher.value(before, []) == []
      ensures Valid() && this.source == source && this.cipher == cipher
      ensures returned == [] && received == [] && stream == DecryptAll(cipher, [], source.chunks)
    {
      this.source, this.cipher, buf, received, returned := source, cipher, [], [], [];
      stream := DecryptAll(cipher, [], source.chunks);
    }

    method Fill() returns (ok: bool)
      requires Valid()
      modifies this, source
      ensures Valid() && returned == old(returned) && Pending() == old(Pending())
      ensures ok == (old(source.chunks) != [])
      ensures ok ==> |source.chunks| < |old(source.chunks)|
      ensures !ok ==> source.chunks == [] && buf == old(buf)
    {
      ghost var before := Pending();
      ghost var chunks := source.chunks;
      assert chunks != [] ==> chunks[0] in chunks;
      var data := source.Recv();
      if data == [] {
        return false;
      }
      assert chunks != [] && source.chunks == chunks[1..];
      var plain := Decrypt(cipher, received, data);
      received := received + [data];
      buf := buf + plain;
      assert Pending() == before;
      ok := true;
    }

    /** Succeeds exactly when that many bytes are still to come, whatever the chunks, and gives those bytes. */
    method ReadExactly(n: nat) returns (r: Option<seq<Byte>>)
      requires Valid()
      modifies this, source
      ensures Valid()
      ensures n <= |old(Pending())| ==> r == Some(old(Pending())[..n]) && Pending() == old(Pending())[n..]
      ensures n > |old(Pending())| ==> r == None && Pending() == old(Pending())
      ensures returned == old(returned) + if r.Some? then r.value else []
    {
      ghost var before := Pending();
      while |buf| < n
        invariant Valid() && returned == old(returned) && Pending() == before
        decreases |source.chunks|
      {
        var filled := Fill();
        if !filled {
          return None;
        }
      }
      r := Some(buf[..n]);
      buf := buf[n..];
      assert before == r.value + Pending();
      ConcatIsAssociative(returned, r.value, Pending());
      returned := returned + r.value;
    }

    /** What is buffered goes first. Only then is the connection read again. */
    method ReadSome(n: nat) returns (r: seq<Byte>)
      requires Valid()
      modifies this, source
      ensures Valid()
      ensures old(Pending()) == r + Pending()
      ensures returned == old(returned) + r
      ensures old(buf) != [] ==> source.chunks == old(source.chunks) && |r| == if n < |old(buf)| then n else |old(buf)|
      ensures n > 0 && cipher.None? ==> (r == [] <==> old(Pending()) == [])
    {
      if buf != [] {
        r := ReadBuffered(n);
      } else {
        r := ReadFresh();
      }
      ConcatIsAssociative(returned, r, Pending());
      returned := returned + r;
    }

    method ReadBuffered(n: nat) returns (r: seq<Byte>)
      requires Valid()
      modifies this`buf
      ensures |r| == (if n < |old(buf)| then n else |old(buf)|) && old(Pending()) == r + Pending()
    {
      var k := if n < |buf| then n else |buf|;
      r := buf[..k];
      buf := buf[k..];
    }

    method ReadFresh() returns (r: seq<Byte>)
      requires Valid() && buf == []
      modifies this, source
      ensures returned == old(returned) && buf == [] && old(Pending()) == r + Pending()
      ensures forall chunk :: chunk in source.chunks ==> chunk != []
      ensures cipher.None? ==> (r == [] <==> old(Pending()) == [])
    {
      ghost var chunks := source.chunks;
      assert chunks != [] ==> chunks[0] in chunks;
      var data := source.Recv();
      r := Decrypt(cipher, received, data);
      DecryptNothing(received, received + [data], source.chunks);
      if cipher.Some? {
        received := received + [data];
      }
    }

    /** Never looks at more than the frame, so what follows it is still there for `ReadSome`. */
    method ReadFrame<P>(loads: seq<Byte> -> Option<P>) returns (r: Result<(char, P), FrameError>)
      requires Valid()
      modifies this, source
      ensures Valid()
      ensures (r, Pending()) == ParseFrame(old(Pending()), loads)
    {
      ghost var s := Pending();
      var header := ReadExactly(HEADER_LENGTH);
      if header.None? {
        return Err(ConnectionClosed);
      }
      var tag := header.value[0] as char;
      var length := FromBigEndian(header.value[1..]);
      assert header.value[1..] == s[1..HEADER_LENGTH];
      var data := ReadExactly(length);
      if data.None? {
        return Err(ConnectionClosed);
      }
      var payload := loads(data.value);
      r := if payload.None? then Err(InvalidJson) else Ok((tag, payload.value));
    }
  }

  lemma {:induction false} DecryptNothing(before: seq<seq<Byte>>, other: seq<seq<Byte>>, chunks: seq<seq<Byte>>)
    ensures DecryptAll(None, before, chunks) == DecryptAll(None, other, chunks)
    decreases |chunks|
  {
    if chunks != [] {
      DecryptNothing(before + [chunks[0]], other + [chunks[0]], chunks[1..]);
    }
  }
}

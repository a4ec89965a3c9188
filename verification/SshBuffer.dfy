/** The SSH data types of section 5 of RFC 4251, written to and read from a buffer (src/provablyfine/ssh/buffer.py). */
module SshBuffer {
  import opened Wrappers
  import opened Bytes

  // ---- mpint ----

  /** The bytes of an mpint, without the length in front of them. */
  function MpintBody(n: int): seq<Byte> {
    if n < 0 then
      var nbytes := (BitLength(-n) + 7 + 1) / 8;
      NegativeFits(-n);
      ToSigned(n, nbytes)
    else if n > 0 then
      var nbytes := (BitLength(n) + 7) / 8;
      PositiveFits(n);
      var buffer := ToBigEndian(n, nbytes);
      if buffer[0] >= 0x80 then [0] + buffer else buffer
    else []
  }

  lemma NegativeFits(m: nat)
    requires m > 0
    ensures var nbytes := (BitLength(m) + 8) / 8;
            nbytes > 0 && 2 * m < Pow256(nbytes) && Pow256(nbytes - 1) <= 2 * m
  {
    var nbytes := (BitLength(m) + 8) / 8;
    BitLengthBounds(m);
    Pow256IsPow2(nbytes);
    Pow256IsPow2(nbytes - 1);
    assert Pow2(BitLength(m) + 1) == 2 * Pow2(BitLength(m));
    Pow2Grows(BitLength(m) + 1, 8 * nbytes);
    assert 2 * Pow2(BitLength(m) - 1) == Pow2(BitLength(m));
    Pow2Grows(8 * (nbytes - 1), BitLength(m));
  }

  lemma PositiveFits(n: nat)
    requires n > 0
    ensures var nbytes := (BitLength(n) + 7) / 8;
            nbytes > 0 && n < Pow256(nbytes) && Pow256(nbytes - 1) <= n
  {
    var nbytes := (BitLength(n) + 7) / 8;
    BitLengthBounds(n);
    Pow256IsPow2(nbytes);
    Pow256IsPow2(nbytes - 1);
    Pow2Grows(BitLength(n), 8 * nbytes);
    Pow2Grows(8 * (nbytes - 1), BitLength(n) - 1);
  }

  lemma LeadingZero(s: seq<Byte>)
    ensures FromBigEndian([0] + s) == FromBigEndian(s)
  {
    FirstByte([0] + s);
    assert ([0] + s)[1..] == s;
  }

  /** Reading undoes writing, for every integer. */
  lemma MpintRoundTrip(n: int)
    ensures FromSigned(MpintBody(n)) == n
  {
    if n < 0 {
      NegativeFits(-n);
      FromToSigned(n, (BitLength(-n) + 8) / 8);
    } else if n > 0 {
      var nbytes := (BitLength(n) + 7) / 8;
      PositiveFits(n);
      FromTo(n, nbytes);
      LeadingZero(ToBigEndian(n, nbytes));
    }
  }

  /** No shorter sequence of bytes reads back as the same integer. */
  ghost predicate IsShortest(s: seq<Byte>) {
    forall t: seq<Byte> :: FromSigned(t) == FromSigned(s) ==> |s| <= |t|
  }

  /** n == -(2^(8k-1)): the least integer of k bytes. */
  predicate IsLeast(n: int, k: nat) {
    k >= 1 && 2 * n + Pow256(k) == 0
  }

  ghost predicate IsLeastOfItsWidth(n: int) {
    exists k: nat :: IsLeast(n, k)
  }

  lemma PositiveNeedsItsBytes(n: int)
    requires n > 0
    ensures MpintBody(n) != [] && 2 * n >= Pow256(|MpintBody(n)| - 1)
  {
    var nbytes := (BitLength(n) + 7) / 8;
    PositiveFits(n);
    FromTo(n, nbytes);
    TopBit(ToBigEndian(n, nbytes));
  }

  lemma PositiveIsShortest(n: int)
    requires n > 0
    ensures IsShortest(MpintBody(n))
  {
    MpintRoundTrip(n);
    PositiveNeedsItsBytes(n);
    var width := |MpintBody(n)|;
    forall t: seq<Byte> | FromSigned(t) == n ensures width <= |t| {
      FromSignedFits(t);
      if |t| < width {
        Pow256Grows(|t|, width - 1);
      }
    }
  }

  lemma ShorterOnlyIfLeast(n: int, width: nat)
    requires n < 0 && FitsSigned(n, width) && width < |MpintBody(n)|
    ensures IsLeast(n, width) && |MpintBody(n)| == width + 1
  {
    var nbytes := |MpintBody(n)|;
    NegativeFits(-n);
    Pow256Grows(width, nbytes - 1);
    if width < nbytes - 1 {
      Pow256Grows(width + 1, nbytes - 1);
    }
    assert Pow256(0) == 1;
  }

  lemma NegativeIsShortestUnlessLeast(n: int)
    requires n < 0 && !IsLeastOfItsWidth(n)
    ensures IsShortest(MpintBody(n))
  {
    MpintRoundTrip(n);
    forall t: seq<Byte> | FromSigned(t) == n ensures |MpintBody(n)| <= |t| {
      FromSignedFits(t);
      if |t| < |MpintBody(n)| {
        ShorterOnlyIfLeast(n, |t|);
      }
    }
  }

  lemma LeastIsShortest(n: int, k: nat)
    requires IsLeast(n, k)
    ensures FromSigned(ToSigned(n, k)) == n && IsShortest(ToSigned(n, k))
  {
    FromToSigned(n, k);
    forall t: seq<Byte> | FromSigned(t) == n ensures k <= |t| {
      FromSignedFits(t);
      if |t| < k {
        Pow256Grows(|t|, k - 1);
      }
    }
  }

  lemma LeastNeedsOneMore(n: int, k: nat)
    requires IsLeast(n, k)
    ensures |MpintBody(n)| == k + 1
  {
    NegativeFits(-n);
    if |MpintBody(n)| <= k {
      Pow256Grows(|MpintBody(n)|, k);
    } else {
      ShorterOnlyIfLeast(n, k);
    }
  }

  /** For the least integer of k bytes the code writes k + 1 bytes: one 0xFF in front of the shortest form. */
  lemma LeastHasOneByteTooMany(n: int, k: nat)
    requires IsLeast(n, k)
    ensures |ToSigned(n, k)| == k && IsShortest(ToSigned(n, k)) && FromSigned(ToSigned(n, k)) == n
    ensures MpintBody(n) == [0xFF] + ToSigned(n, k)
    ensures !IsShortest(MpintBody(n))
  {
    LeastIsShortest(n, k);
    LeastNeedsOneMore(n, k);
    MpintRoundTrip(n);
    OneByteWider(n, k);
  }

  lemma OneByteInFront(n: int, k: nat)
    requires IsLeast(n, k)
    ensures FitsSigned(n, k + 1) && FromBigEndian([0xFF] + ToSigned(n, k)) == n + Pow256(k + 1)
  {
    var s: seq<Byte> := [0xFF] + ToSigned(n, k);
    FromTo(n + Pow256(k), k);
    FirstByte(s);
    assert s[1..] == ToSigned(n, k);
  }

  lemma OneByteWider(n: int, k: nat)
    requires IsLeast(n, k)
    ensures FitsSigned(n, k + 1) && ToSigned(n, k + 1) == [0xFF] + ToSigned(n, k)
  {
    OneByteInFront(n, k);
    ToFrom([0xFF] + ToSigned(n, k));
  }

  /** The code writes the shortest form that the RFC asks for, except for the least integer of each width. */
  lemma MpintIsShortestIff(n: int)
    ensures IsShortest(MpintBody(n)) <==> !IsLeastOfItsWidth(n)
  {
    if n > 0 {
      PositiveIsShortest(n);
    } else if n < 0 {
      if k: nat :| IsLeast(n, k) {
        LeastHasOneByteTooMany(n, k);
      } else {
        NegativeIsShortestUnlessLeast(n);
      }
    }
  }

  lemma MinusOneHundredTwentyEight()
    ensures MpintBody(-128) == [0xFF, 0x80] && FromSigned([0x80]) == -128
  {
    assert Pow256(0) == 1 && Pow256(1) == 256;
    LeastHasOneByteTooMany(-128, 1);
    assert ToSigned(-128, 1) == ToBigEndian(0, 0) + [0x80];
    FromToSigned(-128, 1);
  }

  // ---- Fields ----

  datatype Field =
    | Raw(bytes: seq<Byte>)
    | Uint32(value: int)
    | Uint64(value: int)
    | Str(bytes: seq<Byte>)
    | Mpint(n: int)

  /** What a reader has to know about a field before it reads it. */
  datatype Shape = RawShape(n: nat) | Uint32Shape | Uint64Shape | StrShape | MpintShape

  function ShapeOf(f: Field): Shape {
    match f
    case Raw(bytes) => RawShape(|bytes|)
    case Uint32(_) => Uint32Shape
    case Uint64(_) => Uint64Shape
    case Str(_) => StrShape
    case Mpint(_) => MpintShape
  }

  function EncodeUint(value: int, width: nat): Option<seq<Byte>> {
    if 0 <= value < Pow256(width) then Some(ToBigEndian(value, width)) else None
  }

  function EncodeString(bytes: seq<Byte>): Option<seq<Byte>> {
    match EncodeUint(|bytes|, 4)
    case None => None
    case Some(length) => Some(length + bytes)
  }

  /** None is Python's OverflowError: the value or the length does not fit. */
  function Encode(f: Field): Option<seq<Byte>> {
    match f
    case Raw(bytes) => Some(bytes)
    case Uint32(value) => EncodeUint(value, 4)
    case Uint64(value) => EncodeUint(value, 8)
    case Str(bytes) => EncodeString(bytes)
    case Mpint(n) => EncodeString(MpintBody(n))
  }

  lemma FourBytes(a: Byte, b: Byte, c: Byte, d: Byte)
    ensures Pow256(4) == 0x1_0000_0000
    ensures FromBigEndian([a, b, c, d]) == a * 0x100_0000 + b * 0x1_0000 + c * 0x100 + d
  {
    assert Pow256(1) == 256 && Pow256(2) == 0x1_0000 && Pow256(3) == 0x100_0000;
    assert [a, b, c, d][..3] == [a, b, c] && [a, b, c][..2] == [a, b] && [a, b][..1] == [a] && [a][..0] == [];
    assert FromBigEndian([a]) == a && FromBigEndian([a, b]) == 256 * a + b;
  }

  /** A uint32 is four bytes, the most significant one first (section 5 of RFC 4251). */
  lemma Uint32Bytes(value: int, a: Byte, b: Byte, c: Byte, d: Byte)
    ensures Encode(Uint32(value)) == Some([a, b, c, d]) <==> value == a * 0x100_0000 + b * 0x1_0000 + c * 0x100 + d
    ensures Encode(Uint32(value)).Some? <==> 0 <= value < 0x1_0000_0000
  {
    FourBytes(a, b, c, d);
    ToFrom([a, b, c, d]);
    if 0 <= value < Pow256(4) {
      FromTo(value, 4);
    }
  }

  lemma Uint64Bytes(value: int, high: nat, low: nat)
    requires high < 0x1_0000_0000 && low < 0x1_0000_0000
    ensures value == high * 0x1_0000_0000 + low ==>
              Encode(Uint64(value)).Some? && Encode(Uint32(high)).Some? && Encode(Uint32(low)).Some? &&
              Encode(Uint64(value)).value == Encode(Uint32(high)).value + Encode(Uint32(low)).value
  {
    FourBytes(0, 0, 0, 0);
    if value == high * 0x1_0000_0000 + low {
      var h, l := ToBigEndian(high, 4), ToBigEndian(low, 4);
      FromTo(high, 4);
      FromTo(low, 4);
      FromConcat(h, l);
      ToFrom(h + l);
    }
  }

  lemma {:induction false} FromConcat(a: seq<Byte>, b: seq<Byte>)
    ensures FromBigEndian(a + b) == FromBigEndian(a) * Pow256(|b|) + FromBigEndian(b)
  {
    if b == [] {
      assert a + b == a;
    } else {
      assert (a + b)[..|a + b| - 1] == a + b[..|b| - 1];
      FromConcat(a, b[..|b| - 1]);
      Swap(FromBigEndian(a), Pow256(|b| - 1));
    }
  }

  /** A string is its length as a uint32 and its bytes. */
  lemma StringBytes(bytes: seq<Byte>, a: Byte, b: Byte, c: Byte, d: Byte)
    ensures Encode(Str(bytes)) == Some([a, b, c, d] + bytes) <==>
            |bytes| == a * 0x100_0000 + b * 0x1_0000 + c * 0x100 + d
    ensures Encode(Str(bytes)).Some? <==> |bytes| < 0x1_0000_0000
  {
    Uint32Bytes(|bytes|, a, b, c, d);
    if Encode(Uint32(|bytes|)).Some? {
      SamePrefix(Encode(Uint32(|bytes|)).value, [a, b, c, d], bytes);
    }
  }

  lemma SamePrefix(p: seq<Byte>, q: seq<Byte>, s: seq<Byte>)
    ensures p + s == q + s <==> p == q
  {
    if p + s == q + s {
      assert |p + s| == |q + s|;
      assert (p + s)[..|p|] == p && (q + s)[..|q|] == q;
    }
  }

  function EncodeAll(fs: seq<Field>): Option<seq<Byte>> {
    if fs == [] then Some([])
    else
      match (Encode(fs[0]), EncodeAll(fs[1..]))
      case (Some(a), Some(b)) => Some(a + b)
      case _ => None
  }

  /** A value and what follows it, or None if the buffer is too short. */
  function TakeBytes(s: seq<Byte>, n: nat): Option<(seq<Byte>, seq<Byte>)> {
    if n > |s| then None else Some((s[..n], s[n..]))
  }

  function TakeUint(s: seq<Byte>, width: nat): Option<(nat, seq<Byte>)> {
    match TakeBytes(s, width)
    case None => None
    case Some((bytes, rest)) => Some((FromBigEndian(bytes), rest))
  }

  function TakeString(s: seq<Byte>): Option<(seq<Byte>, seq<Byte>)> {
    match TakeUint(s, 4)
    case None => None
    case Some((length, rest)) => TakeBytes(rest, length)
  }

  function TakeField(s: seq<Byte>, shape: Shape): Option<(Field, seq<Byte>)> {
    match shape
    case RawShape(n) => (match TakeBytes(s, n) case None => None case Some((b, rest)) => Some((Raw(b), rest)))
    case Uint32Shape => (match TakeUint(s, 4) case None => None case Some((v, rest)) => Some((Uint32(v), rest)))
    case Uint64Shape => (match TakeUint(s, 8) case None => None case Some((v, rest)) => Some((Uint64(v), rest)))
    case StrShape => (match TakeString(s) case None => None case Some((b, rest)) => Some((Str(b), rest)))
    case MpintShape =>
      (match TakeString(s) case None => None case Some((b, rest)) => Some((Mpint(FromSigned(b)), rest)))
  }

  function TakeAll(s: seq<Byte>, shapes: seq<Shape>): Option<(seq<Field>, seq<Byte>)> {
    if shapes == [] then Some(([], s))
    else
      match TakeField(s, shapes[0])
      case None => None
      case Some((f, rest)) =>
        match TakeAll(rest, shapes[1..])
        case None => None
        case Some((fs, left)) => Some(([f] + fs, left))
  }

  function ShapesOf(fs: seq<Field>): seq<Shape> {
    if fs == [] then [] else [ShapeOf(fs[0])] + ShapesOf(fs[1..])
  }

  lemma TakeEncodedUint(value: int, width: nat, rest: seq<Byte>)
    requires EncodeUint(value, width).Some?
    ensures TakeUint(EncodeUint(value, width).value + rest, width) == Some((value, rest))
  {
    var bytes := ToBigEndian(value, width);
    FromTo(value, width);
    assert (bytes + rest)[..width] == bytes && (bytes + rest)[width..] == rest;
  }

  lemma TakeEncodedString(bytes: seq<Byte>, rest: seq<Byte>)
    requires EncodeString(bytes).Some?
    ensures TakeString(EncodeString(bytes).value + rest) == Some((bytes, rest))
  {
    var length := EncodeUint(|bytes|, 4).value;
    TakeEncodedUint(|bytes|, 4, bytes + rest);
    assert length + bytes + rest == length + (bytes + rest);
    assert (bytes + rest)[..|bytes|] == bytes && (bytes + rest)[|bytes|..] == rest;
  }

  lemma TakeEncodedField(f: Field, rest: seq<Byte>)
    requires Encode(f).Some?
    ensures TakeField(Encode(f).value + rest, ShapeOf(f)) == Some((f, rest))
  {
    match f
    case Raw(bytes) =>
      assert (bytes + rest)[..|bytes|] == bytes && (bytes + rest)[|bytes|..] == rest;
    case Uint32(value) => TakeEncodedUint(value, 4, rest);
    case Uint64(value) => TakeEncodedUint(value, 8, rest);
    case Str(bytes) => TakeEncodedString(bytes, rest);
    case Mpint(n) =>
      TakeEncodedString(MpintBody(n), rest);
      MpintRoundTrip(n);
  }

  /** Any sequence of typed writes reads back field by field, and leaves what follows. */
  lemma {:induction false} FieldsRoundTrip(fs: seq<Field>, rest: seq<Byte>)
    requires EncodeAll(fs).Some?
    ensures TakeAll(EncodeAll(fs).value + rest, ShapesOf(fs)) == Some((fs, rest))
  {
    if fs == [] {
      assert [] + rest == rest;
    } else {
      var a, b := Encode(fs[0]).value, EncodeAll(fs[1..]).value;
      assert a + b + rest == a + (b + rest);
      TakeEncodedField(fs[0], b + rest);
      FieldsRoundTrip(fs[1..], rest);
      assert ShapesOf(fs)[1..] == ShapesOf(fs[1..]);
      assert [fs[0]] + fs[1..] == fs;
    }
  }

  // ---- The code ----

  class Reader {
    const buffer: seq<Byte>
    var current: nat

    ghost predicate Valid()
      reads this
    {
      current <= |buffer|
    }

    ghost function Left(): seq<Byte>
      requires Valid()
      reads this
    {
      buffer[current..]
    }

    constructor (buffer: seq<Byte>)
      ensures Valid() && this.buffer == buffer && Left() == buffer
    {
      this.buffer := buffer;
      current := 0;
    }

    method ReadBytes(n: nat) returns (r: Option<seq<Byte>>)
      requires Valid()
      modifies this
      ensures Valid()
      ensures match TakeBytes(old(Left()), n)
              case None => r == None && current == old(current)
              case Some((bytes, rest)) => r == Some(bytes) && Left() == rest
    {
      if current + n > |buffer| {
        return None;
      }
      assert Left()[..n] == buffer[current..current + n] && Left()[n..] == buffer[current + n..];
      r := Some(buffer[current..current + n]);
      current := current + n;
    }

    method ReadUint32() returns (r: Option<nat>)
      requires Valid()
      modifies this
      ensures Valid()
      ensures match TakeUint(old(Left()), 4)
              case None => r == None && current == old(current)
              case Some((value, rest)) => r == Some(value) && Left() == rest
    {
      var bytes := ReadBytes(4);
      r := if bytes.None? then None else Some(FromBigEndian(bytes.value));
    }

    method ReadUint64() returns (r: Option<nat>)
      requires Valid()
      modifies this
      ensures Valid()
      ensures match TakeUint(old(Left()), 8)
              case None => r == None && current == old(current)
              case Some((value, rest)) => r == Some(value) && Left() == rest
    {
      var bytes := ReadBytes(8);
      r := if bytes.None? then None else Some(FromBigEndian(bytes.value));
    }

    /** When the length is there and the bytes are not, the length has been read. */
    method ReadString() returns (r: Option<seq<Byte>>)
      requires Valid()
      modifies this
      ensures Valid()
      ensures match TakeString(old(Left()))
              case None => r == None && current == old(current) + if |old(Left())| < 4 then 0 else 4
              case Some((bytes, rest)) => r == Some(bytes) && Left() == rest
    {
      var length := ReadUint32();
      if length.None? {
        return None;
      }
      r := ReadBytes(length.value);
    }

    method ReadMpint() returns (r: Option<int>)
      requires Valid()
      modifies this
      ensures Valid()
      ensures match TakeField(old(Left()), MpintShape)
              case None => r == None && current == old(current) + if |old(Left())| < 4 then 0 else 4
              case Some((f, rest)) => r == Some(f.n) && Left() == rest
    {
      var bytes := ReadString();
      if bytes.None? {
        return None;
      }
      if |bytes.value| == 0 {
        return Some(0);
      }
      r := Some(FromSigned(bytes.value));
    }
  }

  class Writer {
    var bytes: seq<Byte>

    constructor ()
      ensures bytes == []
    {
      bytes := [];
    }

    method WriteByte(b: int) returns (ok: bool)
      modifies this
      ensures ok == (0 <= b < 256) && bytes == old(bytes) + if ok then [b as Byte] else []
    {
      ok := 0 <= b < 256;
      if ok {
        bytes := bytes + [b];
      }
    }

    method WriteUint32(value: int) returns (ok: bool)
      modifies this
      ensures ok == Encode(Uint32(value)).Some?
      ensures bytes == old(bytes) + if ok then Encode(Uint32(value)).value else []
    {
      var encoded := EncodeUint(value, 4);
      ok := encoded.Some?;
      if ok {
        bytes := bytes + encoded.value;
      }
    }

    method WriteUint64(value: int) returns (ok: bool)
      modifies this
      ensures ok == Encode(Uint64(value)).Some?
      ensures bytes == old(bytes) + if ok then Encode(Uint64(value)).value else []
    {
      var encoded := EncodeUint(value, 8);
      ok := encoded.Some?;
      if ok {
        bytes := bytes + encoded.value;
      }
    }

    method WriteBytes(buffer: seq<Byte>)
      modifies this
      ensures bytes == old(bytes) + buffer
    {
      bytes := bytes + buffer;
    }

    method WriteString(buffer: seq<Byte>) returns (ok: bool)
      modifies this
      ensures ok == Encode(Str(buffer)).Some?
      ensures bytes == old(bytes) + if ok then Encode(Str(buffer)).value else []
    {
      ok := WriteUint32(|buffer|);
      if ok {
        WriteBytes(buffer);
      }
    }

    method WriteNestedString(buffer: seq<Byte>) returns (ok: bool)
      modifies this
      ensures ok == (EncodeString(buffer).Some? && EncodeString(EncodeString(buffer).value).Some?)
      ensures bytes == old(bytes) + if ok then Encode(Str(EncodeString(buffer).value)).value else []
    {
      var writer := new Writer();
      ok := writer.WriteString(buffer);
      if ok {
        assert writer.bytes == EncodeString(buffer).value;
        ok := WriteString(writer.bytes);
      }
    }

    method WriteMpint(n: int) returns (ok: bool)
      modifies this
      ensures ok == Encode(Mpint(n)).Some?
      ensures bytes == old(bytes) + if ok then Encode(Mpint(n)).value else []
    {
      ghost var body := MpintBody(n);
      if n < 0 {
        var nbytes := (BitLength(-n) + 7 + 1) / 8;
        NegativeFits(-n);
        var buffer := ToSigned(n, nbytes);
        assert buffer == body;
        ok := WriteString(buffer);
      } else if n > 0 {
        var nbytes := (BitLength(n) + 7) / 8;
        PositiveFits(n);
        var buffer := ToBigEndian(n, nbytes);
        if buffer[0] >= 0x80 {
          buffer := [0] + buffer;
        }
        assert buffer == body;
        ok := WriteString(buffer);
      } else {
        ok := WriteString([]);
      }
    }
  }
}

/** repo/ws/frame.go (Header), repo/ws/write.go and repo/ws/read.go: the frame header of section 5.2 of RFC 6455. */
module Header {
  import opened Bytes
  import opened Cipher
  import opened Streams

  datatype Header = Header(fin: bool, rsv: byte, opCode: byte, masked: bool, mask: Mask, length: Length)
  {
    /** The fields fit their bits, and an unmasked header has the zero mask the parser leaves in place. */
    predicate Wire() {
      rsv < 8 && opCode < 16 && (!masked ==> mask == NoMask)
    }
  }

  const NoMask: Mask := [0, 0, 0, 0]

  const OpContinuation: byte := 0
  const OpText: byte := 1
  const OpBinary: byte := 2
  const OpClose: byte := 8
  const OpPing: byte := 9
  const OpPong: byte := 10

  const MaxHeaderSize := 14
  const MinHeaderSize := 2
  const Len7 := 125
  const Len16 := 0xFFFF

  /** HeaderSize. Its -1 case needs a length above 2^63 - 1, which an int64 cannot hold. */
  function HeaderSize(h: Header): (n: nat)
    ensures 2 <= n <= 14
  {
    (if h.length < 126 then 2 else if h.length <= Len16 then 4 else 10) + (if h.masked then 4 else 0)
  }

  // ---------- the two leading bytes ----------

  function FirstByte(fin: bool, rsv: byte, op: byte): byte {
    (if fin then 0x80 else 0) | (rsv << 4) | op
  }

  function SecondByte(masked: bool, code: byte): byte {
    code | (if masked then 0x80 else 0)
  }

  predicate FinOf(b: byte) { b & 0x80 != 0 }

  function RsvOf(b: byte): byte { (b & 0x70) >> 4 }

  function OpOf(b: byte): byte { b & 0x0F }

  predicate MaskedOf(b: byte) { b & 0x80 != 0 }

  function CodeOf(b: byte): byte { b & 0x7F }

  lemma FirstByteParts(fin: bool, rsv: byte, op: byte)
    requires rsv < 8 && op < 16
    ensures var b := FirstByte(fin, rsv, op); FinOf(b) == fin && RsvOf(b) == rsv && OpOf(b) == op
  {
  }

  lemma FirstByteWhole(b: byte)
    ensures FirstByte(FinOf(b), RsvOf(b), OpOf(b)) == b && RsvOf(b) < 8 && OpOf(b) < 16
  {
  }

  lemma SecondByteParts(masked: bool, code: byte)
    requires code < 128
    ensures var b := SecondByte(masked, code); MaskedOf(b) == masked && CodeOf(b) == code
  {
  }

  lemma SecondByteWhole(b: byte)
    ensures SecondByte(MaskedOf(b), CodeOf(b)) == b && CodeOf(b) < 128
  {
  }

  lemma SmallCode(n: nat)
    requires n < 126
    ensures Narrow(n) < 126
  {
    ValueOfNarrow(n);
  }

  lemma SmallValue(b: byte)
    ensures Value(b) < 126 <==> b < 126
  {
  }

  /** The 7-bit length field. */
  function LengthCode(n: Length): byte {
    if n <= Len7 then Narrow(n) else if n <= Len16 then 126 else 127
  }

  /** The extended length that follows. */
  function LengthBytes(n: Length): seq<byte> {
    if n <= Len7 then [] else if n <= Len16 then BigEndian(n, 2) else BigEndian(n, 8)
  }

  /** The bytes WriteHeader writes. */
  function Encode(h: Header): (s: seq<byte>)
    ensures |s| == HeaderSize(h)
  {
    [FirstByte(h.fin, h.rsv, h.opCode), SecondByte(h.masked, LengthCode(h.length))]
    + LengthBytes(h.length)
    + (if h.masked then h.mask else [])
  }

  // ---------- parsing ----------

  function ExtendedSize(code: byte): (n: nat)
    ensures n == 0 || n == 2 || n == 8
  {
    if code == 126 then 2 else if code == 127 then 8 else 0
  }

  /** The `extra` bytes after the first two. */
  function Extra(b1: byte): (n: nat)
    ensures n <= 12
  {
    (if MaskedOf(b1) then 4 else 0) + ExtendedSize(CodeOf(b1))
  }

  datatype HeaderResult = Parsed(h: Header, size: nat) | Failed(err: Error)

  /** The header spelled by the first two bytes and the extra ones; None when a 64-bit length has its top bit set. */
  function Assemble(b0: byte, b1: byte, ext: seq<byte>): (r: Option<Header>)
    requires |ext| == Extra(b1)
  {
    var k := ExtendedSize(CodeOf(b1));
    if k == 8 && ext[0] & 0x80 != 0 then None
    else
      var mask: Mask := if MaskedOf(b1) then ext[k..] else NoMask;
      var n := if k == 0 then Value(CodeOf(b1)) else FromBigEndian(ext[..k]);
      assert n <= MAX_LENGTH by { LengthFits(b1, ext); }
      Some(Header(FinOf(b0), RsvOf(b0), OpOf(b0), MaskedOf(b1), mask, n))
  }

  lemma LengthFits(b1: byte, ext: seq<byte>)
    requires |ext| == Extra(b1) && !(ExtendedSize(CodeOf(b1)) == 8 && ext[0] & 0x80 != 0)
    ensures var k := ExtendedSize(CodeOf(b1)); k > 0 ==> FromBigEndian(ext[..k]) <= MAX_LENGTH
  {
    var k := ExtendedSize(CodeOf(b1));
    FromBigEndianBound(ext[..k]);
    Powers();
    if k == 8 {
      assert ext[0] < 0x80;
      assert ext[..k][0] == ext[0];
      TopBit(ext[..k]);
    }
  }

  lemma Powers()
    ensures Base(2) == 0x1_0000 && Base(7) == 0x100_0000_0000_0000 && Base(8) == 0x1_0000_0000_0000_0000
  {
    assert Base(3) == 256 * Base(2);
    assert Base(4) == 256 * Base(3);
    assert Base(5) == 256 * Base(4);
    assert Base(6) == 256 * Base(5);
    assert Base(7) == 256 * Base(6);
  }

  /** What ReadHeader makes of a stream that starts with s. */
  function Parse(s: seq<byte>): (r: HeaderResult)
    ensures r.Parsed? ==> 2 <= r.size <= |s|
  {
    if |s| == 0 then Failed(EOF)
    else if |s| == 1 then Failed(UnexpectedEOF)
    else
      var extra := Extra(s[1]);
      // A stream that ends right after the two leading bytes is reported as a plain EOF.
      if extra > 0 && |s| == 2 then Failed(EOF)
      else if |s| - 2 < extra then Failed(UnexpectedEOF)
      else match Assemble(s[0], s[1], s[2..2 + extra])
        case None => Failed(HeaderLengthMSB)
        case Some(h) => Parsed(h, 2 + extra)
  }

  // ---------- round trips ----------

  /** The extra bytes of an encoded header give the header back. */
  lemma AssembleInvertsEncode(h: Header)
    requires h.Wire()
    ensures var s := Encode(h);
            Extra(s[1]) == |s| - 2 && Assemble(s[0], s[1], s[2..]) == Some(h)
  {
    hide FirstByte, SecondByte, FinOf, RsvOf, OpOf, MaskedOf, CodeOf, Value, Narrow,
         LengthCode, LengthBytes, BigEndian, FromBigEndian;
    var s := Encode(h);
    var n := h.length;
    FirstByteParts(h.fin, h.rsv, h.opCode);
    CodeFacts(n);
    SecondByteParts(h.masked, LengthCode(n));
    var ext := LengthBytes(n);
    var tail := if h.masked then h.mask else [];
    assert s[2..] == ext + tail;
    var k := ExtendedSize(LengthCode(n));
    assert |ext| == k;
    assert (ext + tail)[..k] == ext;
    assert (ext + tail)[k..] == tail;
    if k == 8 {
      assert (ext + tail)[0] == ext[0];
    }
  }

  /** The length field and its extension spell the length. */
  lemma CodeFacts(n: Length)
    ensures LengthCode(n) < 128
    ensures |LengthBytes(n)| == ExtendedSize(LengthCode(n))
    ensures n <= Len7 ==> Value(LengthCode(n)) == n
    ensures n > Len7 ==> FromBigEndian(LengthBytes(n)) == n
    ensures n > Len16 ==> LengthBytes(n)[0] & 0x80 == 0
  {
    Powers();
    if n <= Len7 {
      SmallCode(n);
      ValueOfNarrow(n);
    } else if n <= Len16 {
      BigEndianRoundTrip(n, 2);
    } else {
      BigEndianRoundTrip(n, 8);
      TopBit(BigEndian(n, 8));
      ClearTop(LengthBytes(n)[0]);
    }
  }

  lemma ClearTop(b: byte)
    ensures b < 0x80 <==> b & 0x80 == 0
  {
  }

  /** ReadHeader recovers the header from WriteHeader's bytes, whatever follows them, and uses exactly HeaderSize bytes. */
  lemma ParseInvertsEncode(h: Header, tail: seq<byte>)
    requires h.Wire()
    ensures Parse(Encode(h) + tail) == Parsed(h, HeaderSize(h))
  {
    hide FirstByte, SecondByte, FinOf, RsvOf, OpOf, MaskedOf, CodeOf, Assemble, LengthCode, LengthBytes, ExtendedSize;
    AssembleInvertsEncode(h);
    var e, s := Encode(h), Encode(h) + tail;
    assert s[0] == e[0] && s[1] == e[1];
    assert s[2..|e|] == e[2..];
  }

  /** A header cut short asks for more, in words that tell where it was cut. */
  lemma HeaderCutShort(h: Header, n: nat)
    requires h.Wire() && n < HeaderSize(h)
    ensures Parse(Encode(h)[..n]) == Failed(if n == 0 || n == 2 then EOF else UnexpectedEOF)
  {
    hide Assemble, Encode;
    AssembleInvertsEncode(h);
    var s := Encode(h);
    if n >= 2 {
      assert s[..n][1] == s[1];
      assert Extra(s[1]) == HeaderSize(h) - 2;
    }
  }

  /** No encoded header is a strict prefix of another one. */
  lemma EncodeIsPrefixFree(g: Header, h: Header)
    requires g.Wire() && h.Wire() && Encode(g) <= Encode(h)
    ensures g == h
  {
    var tail := Encode(h)[|Encode(g)|..];
    assert Encode(g) + tail == Encode(h) + [];
    ParseInvertsEncode(g, tail);
    ParseInvertsEncode(h, []);
  }

  /** Re-encoding an accepted header is never longer than what was read,
      and it is as long exactly when the bytes read were the encoder's own. */
  lemma ReEncodingIsMinimal(s: seq<byte>)
    requires Parse(s).Parsed?
    ensures var Parsed(h, n) := Parse(s);
            h.Wire() && HeaderSize(h) <= n && (HeaderSize(h) == n <==> s[..n] == Encode(h))
  {
    var Parsed(h, n) := Parse(s);
    var ext := s[2..n];
    AssembledIsMinimal(s[0], s[1], ext);
    assert s[..n] == [s[0], s[1]] + ext;
    if HeaderSize(h) == n {
      ReassembleEncodes(s[0], s[1], ext);
    }
  }

  lemma AssembledIsMinimal(b0: byte, b1: byte, ext: seq<byte>)
    requires |ext| == Extra(b1) && Assemble(b0, b1, ext).Some?
    ensures var h := Assemble(b0, b1, ext).value; h.Wire() && HeaderSize(h) <= 2 + |ext|
  {
    hide FirstByte, SecondByte, FinOf, RsvOf, OpOf, MaskedOf, CodeOf, Value, Narrow, FromBigEndian;
    FirstByteWhole(b0);
    SecondByteWhole(b1);
    SmallValue(CodeOf(b1));
    var k := ExtendedSize(CodeOf(b1));
    Powers();
    FromBigEndianBound(ext[..k]);
    if k == 0 {
      BelowReserved(CodeOf(b1));
    }
  }

  lemma BelowReserved(c: byte)
    requires c < 128
    ensures ExtendedSize(c) == 0 <==> c < 126
  {
  }

  lemma ReassembleEncodes(b0: byte, b1: byte, ext: seq<byte>)
    requires |ext| == Extra(b1) && Assemble(b0, b1, ext).Some?
    requires HeaderSize(Assemble(b0, b1, ext).value) == 2 + |ext|
    ensures Encode(Assemble(b0, b1, ext).value) == [b0, b1] + ext
  {
    hide FirstByte, SecondByte, FinOf, RsvOf, OpOf, MaskedOf, CodeOf, Value, Narrow, BigEndian, FromBigEndian,
         LengthCode, LengthBytes, ExtendedSize;
    var h := Assemble(b0, b1, ext).value;
    var k := ExtendedSize(CodeOf(b1));
    FirstByteWhole(b0);
    SecondByteWhole(b1);
    MinimalSize(b1, h);
    LengthRecoded(CodeOf(b1), ext[..k], h.length);
    Pieces(h, b0, b1, ext, k);
  }

  lemma MinimalSize(b1: byte, h: Header)
    requires h.masked == MaskedOf(b1) && HeaderSize(h) == 2 + Extra(b1)
    ensures ExtendedSize(CodeOf(b1)) == if h.length < 126 then 0 else if h.length <= Len16 then 2 else 8
  {
    hide MaskedOf, CodeOf, ExtendedSize;
  }

  lemma Pieces(h: Header, b0: byte, b1: byte, ext: seq<byte>, k: nat)
    requires k <= |ext|
    requires b0 == FirstByte(h.fin, h.rsv, h.opCode) && b1 == SecondByte(h.masked, LengthCode(h.length))
    requires LengthBytes(h.length) == ext[..k] && (if h.masked then h.mask else []) == ext[k..]
    ensures Encode(h) == [b0, b1] + ext
  {
    hide FirstByte, SecondByte, LengthCode, LengthBytes;
    assert ext == ext[..k] + ext[k..];
    assert [b0, b1] + ext == [b0, b1] + ext[..k] + ext[k..];
  }

  /** A minimal length field is the one the encoder would choose. */
  lemma LengthRecoded(c: byte, x: seq<byte>, n: Length)
    requires c < 128 && |x| == ExtendedSize(c)
    requires n == if |x| == 0 then Value(c) else FromBigEndian(x)
    requires |x| == if n < 126 then 0 else if n <= Len16 then 2 else 8
    ensures LengthCode(n) == c && LengthBytes(n) == x
  {
    if |x| == 0 {
      NarrowOfValue(c);
    } else {
      FromBigEndianRoundTrip(x);
    }
  }

  // ---------- the byte-slice parser ----------

  /** ReadHeaderFromBytes. With no extra bytes it returns before it sets readoffset, so the offset stays 0. */
  function ParseBytes(s: seq<byte>): (r: HeaderResult) {
    if |s| < 2 then Failed(NeedMoreData)
    else
      var extra := Extra(s[1]);
      if |s| < extra + 2 then Failed(NeedMoreData)
      else match Assemble(s[0], s[1], s[2..2 + extra])
        case None => Failed(HeaderLengthMSB)
        case Some(h) => Parsed(h, if extra == 0 then 0 else extra + 2)
  }

  /** The two parsers accept the same streams with the same header; the slice parser asks for more data
      where the stream parser finds the stream cut short; and the offset is the stream parser's
      if and only if the header is masked or has an extended length. */
  lemma ParsersAgree(s: seq<byte>)
    ensures match Parse(s)
            case Failed(e) => ParseBytes(s) == Failed(if e == HeaderLengthMSB then e else NeedMoreData)
            case Parsed(h, n) =>
              && ParseBytes(s).Parsed? && ParseBytes(s).h == h
              && (ParseBytes(s).size == n <==> h.masked || n > 2)
              && (ParseBytes(s).size != n ==> ParseBytes(s).size == 0)
  {
    hide Assemble;
    if |s| >= 2 && |s| >= 2 + Extra(s[1]) {
      AssembleMasked(s[0], s[1], s[2..2 + Extra(s[1])]);
    }
  }

  lemma AssembleMasked(b0: byte, b1: byte, ext: seq<byte>)
    requires |ext| == Extra(b1)
    ensures Assemble(b0, b1, ext).Some? ==> Assemble(b0, b1, ext).value.masked == MaskedOf(b1)
  {
  }

  /** The header is all there, and its length is one of 64 bits with the top one set. */
  predicate TopBitSet(s: seq<byte>) {
    && |s| >= 10 && s[1] & 0x7f == 127 && s[2] & 0x80 != 0
    && (s[1] & 0x80 != 0 ==> |s| >= 14)
  }

  /** Exactly those headers are refused for good. */
  lemma TopBitIsRefused(s: seq<byte>)
    ensures Parse(s) == Failed(HeaderLengthMSB) <==> TopBitSet(s)
    ensures ParseBytes(s) == Failed(HeaderLengthMSB) <==> TopBitSet(s)
  {
    ParsersAgree(s);
    if |s| >= 2 {
      assert CodeOf(s[1]) == 127 <==> s[1] & 0x7f == 127;
      assert MaskedOf(s[1]) <==> s[1] & 0x80 != 0;
      if |s| >= 2 + Extra(s[1]) && Extra(s[1]) > 0 {
        assert s[2..2 + Extra(s[1])][0] == s[2];
      }
    }
  }

  // ---------- the imperative printer and parser ----------

  method FillFirst(h: Header, p: array<byte>)
    requires p.Length >= 2 && p[0] == 0
    modifies p
    ensures p[0] == FirstByte(h.fin, h.rsv, h.opCode) && p[1..] == old(p[1..])
  {
    if h.fin {
      p[0] := p[0] | 0x80;
    }
    p[0] := p[0] | (h.rsv << 4);
    p[0] := p[0] | h.opCode;
  }

  method FillLength(length: Length, p: array<byte>) returns (n: nat)
    requires p.Length == MaxHeaderSize
    modifies p
    ensures p[0] == old(p[0]) && p[1] == LengthCode(length)
    ensures 2 <= n <= 10 && p[2..n] == LengthBytes(length)
  {
    hide Narrow, BigEndian;
    if length <= Len7 {
      p[1] := Narrow(length);
      n := 2;
    } else if length <= Len16 {
      PutBigEndian(p, 2, length, 2);
      p[1] := 126;
      n := 4;
    } else {
      PutBigEndian(p, 2, length, 8);
      p[1] := 127;
      n := 10;
    }
  }

  method FillMask(h: Header, p: array<byte>, at: nat) returns (n: nat)
    requires p.Length == MaxHeaderSize && 2 <= at <= 10
    modifies p
    ensures p[0] == old(p[0]) && p[1] == SecondByte(h.masked, old(p[1])) && p[2..at] == old(p[2..at])
    ensures at <= n <= MaxHeaderSize && p[at..n] == if h.masked then h.mask else []
  {
    n := at;
    if h.masked {
      p[1] := p[1] | 0x80;
      forall k | 0 <= k < 4 {
        p[at + k] := h.mask[k];
      }
      n := at + 4;
    }
  }

  lemma Parts(s: seq<byte>, at: nat, n: nat)
    requires 2 <= at <= n <= |s|
    ensures s[..n] == [s[0], s[1]] + s[2..at] + s[at..n]
  {
  }

  /** The buffer WriteHeader fills: flags or-ed into two bytes, then the length and the mask in place. */
  method FillHeader(h: Header) returns (bts: array<byte>, n: nat)
    ensures fresh(bts) && bts.Length == MaxHeaderSize
    ensures n <= MaxHeaderSize && bts[..n] == Encode(h)
  {
    hide FirstByte, SecondByte, LengthCode, LengthBytes;
    bts := new byte[MaxHeaderSize](_ => 0);
    FillFirst(h, bts);
    var at := FillLength(h.length, bts);
    n := FillMask(h, bts, at);
    Parts(bts[..], at, n);
  }

  method PutBigEndian(p: array<byte>, at: nat, v: nat, k: nat)
    requires at + k <= p.Length
    modifies p
    ensures p[..at] == old(p[..at]) && p[at..at + k] == BigEndian(v, k) && p[at + k..] == old(p[at + k..])
  {
    var s := BigEndian(v, k);
    forall i | 0 <= i < k {
      p[at + i] := s[i];
    }
  }

  method WriteHeader(dest: Sink, h: Header) returns (err: Option<Error>)
    modifies dest
    ensures err == None ==> dest.data == old(dest.data) + Encode(h)
    ensures old(dest.data) <= dest.data <= old(dest.data) + Encode(h)
    ensures err == None || (err == Some(SinkFailed) && !dest.reliable)
  {
    var bts, n := FillHeader(h);
    var _, e := dest.Write(bts[..n]);
    err := e;
  }

  /** ReadHeader: two hops of io.ReadFull over one buffer. However the source cuts its reads, it computes Parse
      of the stream and consumes exactly the header. */
  method ReadHeader(r: Source) returns (h: Header, err: Option<Error>)
    modifies r
    ensures r.stalls <= old(r.stalls)
    ensures match Parse(old(r.rest))
            case Parsed(g, n) => err == None && h == g && r.rest == old(r.rest)[n..]
            case Failed(e) => err == Some(e)
  {
    ghost var s := r.rest;
    var bts := new byte[MaxHeaderSize - 2];
    h := Header(false, 0, 0, false, NoMask, 0);
    err := r.ReadFull(bts, 0, 2);
    if err != None {
      return;
    }
    assert bts[..2] == bts[0..2] == s[..2];
    var b0, b1 := bts[0], bts[1];
    assert b0 == s[0] && b1 == s[1];
    var extra := Extra(b1);
    assert s[2..][..0] == [];
    if extra == 0 {
      assert Assemble(b0, b1, []).Some?;
      h := Assemble(b0, b1, []).value;
      assert s[2..2 + extra] == [];
      return;
    }
    // The first two bytes are overwritten, as in the source.
    err := r.ReadFull(bts, 0, extra);
    if err != None {
      return;
    }
    assert bts[..extra] == bts[0..extra] == s[2..][..extra] == s[2..2 + extra];
    var a := Assemble(b0, b1, bts[..extra]);
    if a == None {
      err := Some(HeaderLengthMSB);
      return;
    }
    h := a.value;
    assert s[2..][extra..] == s[2 + extra..];
  }
}

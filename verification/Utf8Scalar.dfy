/** The scalar values that the automaton of repo/ws/wsutil/utf8.go collects in codep (RFC 3629, section 3). */
module Utf8Scalar {
  import opened Bytes
  import opened Utf8

  /** A Unicode scalar value: up to U+10FFFF, without the surrogates. */
  predicate IsScalar(v: bv32) {
    v <= 0x10FFFF && !(0xD800 <= v <= 0xDFFF)
  }

  /** The encoder of section 3: the shortest form, bits distributed over one to four bytes. */
  function EncodeScalar(v: bv32): seq<byte>
    requires IsScalar(v)
  {
    if v <= 0x7F then [Ascii(v)]
    else if v <= 0x7FF then [Head2(v), Rest(v)]
    else if v <= 0xFFFF then [Head3(v), Rest(v >> 6), Rest(v)]
    else [Head4(v), Rest(v >> 12), Rest(v >> 6), Rest(v)]
  }

  function Ascii(v: bv32): byte { (v & 0x7F) as byte }

  function Head2(v: bv32): byte { ((v >> 6) & 0x1F) as byte | 0xC0 }

  function Head3(v: bv32): byte { ((v >> 12) & 0x0F) as byte | 0xE0 }

  function Head4(v: bv32): byte { ((v >> 18) & 0x07) as byte | 0xF0 }

  function Rest(v: bv32): byte { (v & 0x3F) as byte | 0x80 }

  /** The bits of a character put together. */
  function Scalar(c: seq<byte>): bv32
    requires 1 <= |c| <= 4
  {
    match |c|
    case 1 => Join1(c[0])
    case 2 => Join2(c[0], c[1])
    case 3 => Join3(c[0], c[1], c[2])
    case _ => Join4(c[0], c[1], c[2], c[3])
  }

  function Join1(a: byte): bv32 { a as bv32 }

  function Join2(a: byte, b: byte): bv32 { (((a & 0x1F) as bv32) << 6) | Low6(b) }

  function Join3(a: byte, b: byte, c: byte): bv32 {
    (((a & 0x0F) as bv32) << 12) | (Low6(b) << 6) | Low6(c)
  }

  function Join4(a: byte, b: byte, c: byte, d: byte): bv32 {
    (((a & 0x07) as bv32) << 18) | (Low6(b) << 12) | (Low6(c) << 6) | Low6(d)
  }

  function Low6(b: byte): bv32 { (b & 0x3F) as bv32 }

  lemma LeadPayload(b: byte)
    ensures b <= 0x7F ==> Lead(b) == b as bv32
    ensures 0xC2 <= b <= 0xDF ==> Lead(b) == (b & 0x1F) as bv32
    ensures 0xE0 <= b <= 0xEF ==> Lead(b) == (b & 0x0F) as bv32
    ensures 0xF0 <= b <= 0xF4 ==> Lead(b) == (b & 0x07) as bv32
  {
  }

  lemma Gather2(a: byte, b: byte)
    ensures Push((a & 0x1F) as bv32, b) == Join2(a, b)
  {
  }

  lemma Gather3(a: byte, b: byte, c: byte)
    ensures Push(Push((a & 0x0F) as bv32, b), c) == Join3(a, b, c)
  {
  }

  lemma Gather4(a: byte, b: byte, c: byte, d: byte)
    ensures Push(Push(Push((a & 0x07) as bv32, b), c), d) == Join4(a, b, c, d)
  {
  }

  lemma Yield2(d: Decoder, a: byte, b: byte)
    requires d.state == Accept && IsChar([a, b])
    ensures Decode(Decode(d, a), b) == Decoder(Accept, Join2(a, b))
  {
    hide Next, Lead, Push, Join2;
    LeadRow(a);
    LeadPayload(a);
    TailRows(b);
    Gather2(a, b);
  }

  lemma Yield3(d: Decoder, a: byte, b: byte, c: byte)
    requires d.state == Accept && IsChar([a, b, c])
    ensures Decode(Decode(Decode(d, a), b), c) == Decoder(Accept, Join3(a, b, c))
  {
    hide Next, Lead, Push, Join3;
    LeadRow(a);
    LeadPayload(a);
    TailRows(b);
    TailRows(c);
    Gather3(a, b, c);
  }

  lemma Yield4(d: Decoder, a: byte, b: byte, c: byte, e: byte)
    requires d.state == Accept && IsChar([a, b, c, e])
    ensures Decode(Decode(Decode(Decode(d, a), b), c), e) == Decoder(Accept, Join4(a, b, c, e))
  {
    hide Next, Lead, Push, Join4;
    LeadRow(a);
    LeadPayload(a);
    TailRows(b);
    TailRows(c);
    TailRows(e);
    Gather4(a, b, c, e);
  }

  /** Reading one character from the accepting state ends there again, with its scalar value in codep. */
  lemma CharYieldsScalar(d: Decoder, c: seq<byte>)
    requires d.state == Accept && IsChar(c)
    ensures Run(d, c) == Decoder(Accept, Scalar(c))
  {
    hide Run, Decode, Join1, Join2, Join3, Join4;
    RunFour(d, c);
    if |c| == 1 {
      Yield1(d, c[0]);
    } else if |c| == 2 {
      assert c == [c[0], c[1]];
      Yield2(d, c[0], c[1]);
    } else if |c| == 3 {
      assert c == [c[0], c[1], c[2]];
      Yield3(d, c[0], c[1], c[2]);
    } else {
      assert c == [c[0], c[1], c[2], c[3]];
      Yield4(d, c[0], c[1], c[2], c[3]);
    }
  }

  lemma Yield1(d: Decoder, a: byte)
    requires d.state == Accept && IsChar([a])
    ensures Decode(d, a) == Decoder(Accept, Join1(a))
  {
    hide Next, Lead;
    LeadRow(a);
    LeadPayload(a);
  }

  lemma RunFour(d: Decoder, c: seq<byte>)
    requires 1 <= |c| <= 4
    ensures Run(d, c) == match |c|
                         case 1 => Decode(d, c[0])
                         case 2 => Decode(Decode(d, c[0]), c[1])
                         case 3 => Decode(Decode(Decode(d, c[0]), c[1]), c[2])
                         case _ => Decode(Decode(Decode(Decode(d, c[0]), c[1]), c[2]), c[3])
  {
    hide Decode;
    assert Run(d, c[..0]) == d;
    assert Run(d, c[..1]) == Decode(d, c[0]) by { assert c[..1][..0] == c[..0]; }
    if |c| >= 2 { assert Run(d, c[..2]) == Decode(Run(d, c[..1]), c[1]) by { assert c[..2][..1] == c[..1]; } }
    if |c| >= 3 { assert Run(d, c[..3]) == Decode(Run(d, c[..2]), c[2]) by { assert c[..3][..2] == c[..2]; } }
    if |c| >= 4 { assert Run(d, c[..4]) == Decode(Run(d, c[..3]), c[3]) by { assert c[..4][..3] == c[..3]; } }
    assert c[..|c|] == c;
  }

  /** Whenever the automaton accepts after some bytes, they end in a whole character
      and codep is the scalar value of that character. */
  lemma {:induction false} CodepIsTheLastScalar(s: seq<byte>)
    requires s != [] && Run(Start, s).state == Accept
    ensures exists c, init :: s == init + c && IsChar(c) && WellFormed(init) && Run(Start, s).codep == Scalar(c)
  {
    hide Run, Scalar, IsChar, WellFormed;
    AutomatonDecidesUtf8(s);
    var k := LastChar(s);
    var init, c := s[..|s| - k], s[|s| - k..];
    AutomatonDecidesUtf8(init);
    CharYieldsScalar(Run(Start, init), c);
    RunConcat(Start, init, c);
    assert s == init + c;
  }

  lemma {:induction false} LastChar(s: seq<byte>) returns (k: nat)
    requires s != [] && WellFormed(s)
    ensures 1 <= k <= 4 && k <= |s| && IsChar(s[|s| - k..]) && WellFormed(s[..|s| - k])
    decreases |s|
  {
    hide IsChar;
    var j :| 1 <= j <= 4 && j <= |s| && IsChar(s[..j]) && WellFormed(s[j..]);
    if j == |s| {
      assert s[..j] == s == s[|s| - j..];
      assert s[..0] == [];
      k := j;
    } else {
      var rest := s[j..];
      k := LastChar(rest);
      assert rest[|rest| - k..] == s[|s| - k..];
      var init := s[..|s| - k];
      assert init[..j] == s[..j] && init[j..] == rest[..|rest| - k];
    }
  }

  // ---------- the characters of the grammar are the encodings of the scalar values ----------

  lemma ScalarInvertsEncode(v: bv32)
    requires IsScalar(v)
    ensures IsChar(EncodeScalar(v)) && Scalar(EncodeScalar(v)) == v
  {
    hide Ascii, Head2, Head3, Head4, Rest, Join1, Join2, Join3, Join4;
    if v <= 0x7F {
      Split1(v);
    } else if v <= 0x7FF {
      Split2(v);
    } else if v <= 0xFFFF {
      Split3(v);
      Rejoin3(v);
    } else {
      Split4(v);
      Rejoin4(v);
    }
    assert Tail(Rest(v)) && Tail(Rest(v >> 6)) && Tail(Rest(v >> 12)) by {
      RestIsTail(v);
      RestIsTail(v >> 6);
      RestIsTail(v >> 12);
    }
  }

  lemma RestIsTail(v: bv32)
    ensures Tail(Rest(v))
  {
  }

  lemma Split1(v: bv32)
    requires v <= 0x7F
    ensures Ascii(v) <= 0x7F && Join1(Ascii(v)) == v
  {
  }

  lemma Split2(v: bv32)
    requires 0x80 <= v <= 0x7FF
    ensures 0xC2 <= Head2(v) <= 0xDF && Join2(Head2(v), Rest(v)) == v
  {
  }

  lemma Split3(v: bv32)
    requires 0x800 <= v <= 0xFFFF && IsScalar(v)
    ensures 0xE0 <= Head3(v) <= 0xEF
    ensures Head3(v) == 0xE0 ==> Rest(v >> 6) >= 0xA0
    ensures Head3(v) == 0xED ==> Rest(v >> 6) <= 0x9F
  {
  }

  lemma Rejoin3(v: bv32)
    requires v <= 0xFFFF
    ensures Join3(Head3(v), Rest(v >> 6), Rest(v)) == v
  {
  }

  lemma Split4(v: bv32)
    requires 0x10000 <= v <= 0x10FFFF
    ensures 0xF0 <= Head4(v) <= 0xF4
    ensures Head4(v) == 0xF0 ==> Rest(v >> 12) >= 0x90
    ensures Head4(v) == 0xF4 ==> Rest(v >> 12) <= 0x8F
  {
  }

  lemma Rejoin4(v: bv32)
    requires v <= 0x10FFFF
    ensures Join4(Head4(v), Rest(v >> 12), Rest(v >> 6), Rest(v)) == v
  {
  }

  lemma EncodeInvertsScalar(c: seq<byte>)
    requires IsChar(c)
    ensures IsScalar(Scalar(c)) && EncodeScalar(Scalar(c)) == c
  {
    hide EncodeScalar, Join1, Join2, Join3, Join4, IsScalar;
    if |c| == 1 {
      Unsplit1(c[0]);
    } else if |c| == 2 {
      Unsplit2(c[0], c[1]);
      assert c == [c[0], c[1]];
    } else if |c| == 3 {
      assert c == [c[0], c[1], c[2]];
      Unsplit3(c[0], c[1], c[2]);
    } else {
      assert c == [c[0], c[1], c[2], c[3]];
      Unsplit4(c[0], c[1], c[2], c[3]);
    }
  }

  lemma Unsplit1(a: byte)
    requires a <= 0x7F
    ensures IsScalar(Join1(a)) && EncodeScalar(Join1(a)) == [a]
  {
  }

  lemma Unsplit2(a: byte, b: byte)
    requires 0xC2 <= a <= 0xDF && Tail(b)
    ensures IsScalar(Join2(a, b)) && EncodeScalar(Join2(a, b)) == [a, b]
  {
    Parts2(a, b);
    hide Join2, Head2, Rest;
  }

  lemma Parts2(a: byte, b: byte)
    requires 0xC2 <= a <= 0xDF && Tail(b)
    ensures var v := Join2(a, b); 0x80 <= v <= 0x7FF && Head2(v) == a && Rest(v) == b
  {
  }

  lemma Unsplit3(a: byte, b: byte, c: byte)
    requires IsChar([a, b, c])
    ensures IsScalar(Join3(a, b, c)) && EncodeScalar(Join3(a, b, c)) == [a, b, c]
  {
    Parts3(a, b, c);
    Range3(a, b, c);
    hide Join3, Head3, Rest;
  }

  lemma Parts3(a: byte, b: byte, c: byte)
    requires 0xE0 <= a <= 0xEF && Tail(b) && Tail(c)
    ensures var v := Join3(a, b, c); Head3(v) == a && Rest(v >> 6) == b && Rest(v) == c
  {
  }

  lemma Range3(a: byte, b: byte, c: byte)
    requires IsChar([a, b, c])
    ensures var v := Join3(a, b, c); 0x800 <= v <= 0xFFFF && IsScalar(v)
  {
  }

  lemma Unsplit4(a: byte, b: byte, c: byte, d: byte)
    requires IsChar([a, b, c, d])
    ensures IsScalar(Join4(a, b, c, d)) && EncodeScalar(Join4(a, b, c, d)) == [a, b, c, d]
  {
    Parts4(a, b, c, d);
    Range4(a, b, c, d);
    hide Join4, Head4, Rest;
  }

  lemma Parts4(a: byte, b: byte, c: byte, d: byte)
    requires 0xF0 <= a <= 0xF4 && Tail(b) && Tail(c) && Tail(d)
    ensures var v := Join4(a, b, c, d); Head4(v) == a && Rest(v >> 12) == b && Rest(v >> 6) == c && Rest(v) == d
  {
  }

  lemma Range4(a: byte, b: byte, c: byte, d: byte)
    requires IsChar([a, b, c, d])
    ensures var v := Join4(a, b, c, d); 0x10000 <= v <= 0x10FFFF
  {
  }
}

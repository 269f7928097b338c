/** repo/ws/cipher.go and repo/ws/wsutil/cipher.go: the XOR masking of section 5.3 of RFC 6455. */
module Cipher {
  import opened Bytes

  type Mask = m: seq<byte> | |m| == 4 witness [0, 0, 0, 0]

  /** The byte-wise rule of section 5.3: byte i is combined with mask byte (offset + i) mod 4. */
  function Masked(p: seq<byte>, mask: Mask, offset: nat): (r: seq<byte>)
    ensures |r| == |p|
  {
    seq(|p|, i requires 0 <= i < |p| => MaskedByte(p[i], mask, offset + i))
  }

  function Xor(a: byte, b: byte): byte {
    a ^ b
  }

  /** b combined with the mask byte for position pos. */
  function MaskedByte(b: byte, mask: Mask, pos: nat): byte {
    Xor(b, mask[pos % 4])
  }

  /** Masking twice restores the payload. */
  lemma MaskedTwice(p: seq<byte>, mask: Mask, offset: nat)
    ensures Masked(Masked(p, mask, offset), mask, offset) == p
  {
    var once := Masked(p, mask, offset);
    forall i | 0 <= i < |p|
      ensures Masked(once, mask, offset)[i] == p[i]
    {
      XorTwice(p[i], mask[(offset + i) % 4]);
      assert once[i] == MaskedByte(p[i], mask, offset + i);
    }
  }

  lemma XorTwice(a: byte, b: byte)
    ensures (a ^ b) ^ b == a
  {
  }

  /** Masking a stream piece by piece with a running position is masking it at once. */
  lemma MaskedConcat(p: seq<byte>, q: seq<byte>, mask: Mask, offset: nat)
    ensures Masked(p + q, mask, offset) == Masked(p, mask, offset) + Masked(q, mask, offset + |p|)
  {
    var whole, tail := Masked(p + q, mask, offset), Masked(q, mask, offset + |p|);
    forall k | |p| <= k < |p + q|
      ensures whole[k] == tail[k - |p|]
    {
      assert offset + k == (offset + |p|) + (k - |p|);
    }
    assert whole[..|p|] == Masked(p, mask, offset);
    assert whole[|p|..] == tail;
    assert whole == whole[..|p|] + whole[|p|..];
  }

  // ---------- machine words ----------

  /** binary.LittleEndian.Uint32 of four bytes. */
  function Pack32(a: byte, b: byte, c: byte, d: byte): bv32 {
    (a as bv32) | ((b as bv32) << 8) | ((c as bv32) << 16) | ((d as bv32) << 24)
  }

  /** A 64-bit word from its halves; binary.LittleEndian.Uint64 of eight bytes packs the packed halves. */
  function Pack64(lo: bv32, hi: bv32): bv64 {
    (lo as bv64) | ((hi as bv64) << 32)
  }

  function Low32(w: bv64): bv32 { (w & 0xFFFF_FFFF) as bv32 }

  function High32(w: bv64): bv32 { (w >> 32) as bv32 }

  /** byte(w >> 8k) for the four bytes of a 32-bit word: binary.LittleEndian.PutUint64 does this to both halves. */
  function Unpack32(w: bv32): (s: seq<byte>)
    ensures |s| == 4
  {
    [(w & 0xFF) as bv8, ((w >> 8) & 0xFF) as bv8, ((w >> 16) & 0xFF) as bv8, ((w >> 24) & 0xFF) as bv8]
  }

  lemma XorHalves(lo: bv32, hi: bv32, m: bv32)
    ensures Low32(Pack64(lo, hi) ^ Pack64(m, m)) == lo ^ m
    ensures High32(Pack64(lo, hi) ^ Pack64(m, m)) == hi ^ m
  {
  }

  lemma UnpackPacked(a: byte, b: byte, c: byte, d: byte)
    ensures Unpack32(Pack32(a, b, c, d)) == [a, b, c, d]
  {
  }

  /** binary.LittleEndian.Uint32 on one half of a chunk. */
  method LoadHalf(c: seq<byte>) returns (w: bv32)
    requires |c| == 4
    ensures Unpack32(w) == c
  {
    w := Pack32(c[0], c[1], c[2], c[3]);
    UnpackPacked(c[0], c[1], c[2], c[3]);
  }

  /** p ^ m2: one 64-bit XOR with the doubled mask word. */
  method XorDoubled(lo: bv32, hi: bv32, m: bv32) returns (lo': bv32, hi': bv32)
    ensures lo' == lo ^ m && hi' == hi ^ m
  {
    var p := Pack64(lo, hi) ^ Pack64(m, m);
    XorHalves(lo, hi, m);
    lo', hi' := Low32(p), High32(p);
  }

  lemma UnpackXor(w: bv32, m: bv32)
    ensures Unpack32(w ^ m)[0] == Xor(Unpack32(w)[0], Unpack32(m)[0])
    ensures Unpack32(w ^ m)[1] == Xor(Unpack32(w)[1], Unpack32(m)[1])
    ensures Unpack32(w ^ m)[2] == Xor(Unpack32(w)[2], Unpack32(m)[2])
    ensures Unpack32(w ^ m)[3] == Xor(Unpack32(w)[3], Unpack32(m)[3])
  {
  }

  /** Four lanes of a word XOR are the byte-wise rule from phase 0. */
  lemma Lanes(w: bv32, m: bv32, c: seq<byte>, mask: Mask)
    requires Unpack32(w) == c && Unpack32(m) == mask
    ensures Unpack32(w ^ m) == Masked(c, mask, 0)
  {
    hide *;
    var s := Unpack32(w ^ m);
    UnpackXor(w, m);
    Lane(c, mask, 0);
    Lane(c, mask, 1);
    Lane(c, mask, 2);
    Lane(c, mask, 3);
    assert s == [s[0], s[1], s[2], s[3]];
    assert Masked(c, mask, 0) == [s[0], s[1], s[2], s[3]];
  }

  lemma Lane(c: seq<byte>, mask: Mask, i: nat)
    requires i < |c| <= 4
    ensures Masked(c, mask, 0)[i] == Xor(c[i], mask[i])
  {
    assert Masked(c, mask, 0)[i] == MaskedByte(c[i], mask, 0 + i);
  }

  /** The body of the word loop on a chunk given as two halves. */
  method XorWord(lo: seq<byte>, hi: seq<byte>, mask: Mask) returns (lo': seq<byte>, hi': seq<byte>)
    requires |lo| == |hi| == 4
    ensures lo' == Masked(lo, mask, 0) && hi' == Masked(hi, mask, 0)
  {
    hide *;
    var m := LoadHalf(mask);
    var wl := LoadHalf(lo);
    var wh := LoadHalf(hi);
    var xl, xh := XorDoubled(wl, wh, m);
    Lanes(wl, m, lo, mask);
    Lanes(wh, m, hi, mask);
    lo', hi' := Unpack32(xl), Unpack32(xh);
  }

  /** remain: how many bytes bring a position in the mask back to 0. */
  function Remain(mpos: nat): (n: nat)
    requires mpos < 4
    ensures n < 4 && (mpos + n) % 4 == 0
  {
    [0, 3, 2, 1][mpos]
  }

  /** The byte loop `payload[i] ^= mask[(pos+i)%4]` over from <= i < to. */
  method CipherBytes(payload: array<byte>, lo: nat, from: nat, to: nat, mask: Mask, pos: nat)
    requires from <= to && lo + to <= payload.Length
    modifies payload
    ensures forall j :: 0 <= j < payload.Length ==>
              payload[j] == if lo + from <= j < lo + to then MaskedByte(old(payload[j]), mask, pos + j - lo)
                            else old(payload[j])
  {
    for i := from to to
      invariant forall j :: 0 <= j < payload.Length ==>
                  payload[j] == if lo + from <= j < lo + i then MaskedByte(old(payload[j]), mask, pos + j - lo)
                                else old(payload[j])
    {
      payload[lo + i] := payload[lo + i] ^ mask[(pos + i) % 4];
    }
  }

  /** One turn of the word loop: eight bytes at index at, where the mask is in phase. */
  method CipherWord(payload: array<byte>, at: nat, mask: Mask)
    requires at + 8 <= payload.Length
    modifies payload
    ensures forall j :: 0 <= j < payload.Length ==>
              payload[j] == if at <= j < at + 8 then MaskedByte(old(payload[j]), mask, j - at) else old(payload[j])
  {
    var lo, hi := XorWord(payload[at..at + 4], payload[at + 4..at + 8], mask);
    forall k | 0 <= k < 8 {
      payload[at + k] := if k < 4 then lo[k] else hi[k - 4];
    }
    forall j | at <= j < at + 8
      ensures payload[j] == MaskedByte(old(payload[j]), mask, j - at)
    {
      WordPhase(old(payload[j]), mask, 1, if j < at + 4 then 0 else j - at - 4);
    }
  }

  /** Cipher on the slice payload[lo..hi]: short payloads byte by byte, longer ones by words. */
  method Cipher(payload: array<byte>, lo: nat, hi: nat, mask: Mask, offset: nat)
    requires lo <= hi <= payload.Length
    modifies payload
    ensures payload[lo..hi] == Masked(old(payload[lo..hi]), mask, offset)
    ensures payload[..lo] == old(payload[..lo]) && payload[hi..] == old(payload[hi..])
  {
    hide MaskedByte;
    if hi - lo < 8 {
      CipherBytes(payload, lo, 0, hi - lo, mask, offset);
    } else {
      CipherLong(payload, lo, hi, mask, offset);
    }
  }

  /** A head that brings the mask into phase, a tail, and a middle of 64-bit words. */
  method CipherLong(payload: array<byte>, lo: nat, hi: nat, mask: Mask, offset: nat)
    requires lo + 8 <= hi <= payload.Length
    modifies payload
    ensures forall j :: 0 <= j < payload.Length ==>
              payload[j] == if lo <= j < hi then MaskedByte(old(payload[j]), mask, offset + j - lo)
                            else old(payload[j])
  {
    hide MaskedByte;
    var n := hi - lo;
    var mpos := offset % 4;
    var ln := Remain(mpos);
    var rn := (n - ln) % 8;
    CipherBytes(payload, lo, 0, ln, mask, mpos);
    CipherBytes(payload, lo, n - rn, n, mask, mpos);
    CipherWords(payload, lo, ln, (n - ln - rn) / 8, mask);
    forall j | lo <= j < hi
      ensures payload[j] == MaskedByte(old(payload[j]), mask, offset + j - lo)
    {
      InPhase(old(payload[j]), mask, offset, ln, j - lo);
    }
  }

  /** The middle loop: count words starting at lo + ln. */
  method CipherWords(payload: array<byte>, lo: nat, ln: nat, count: nat, mask: Mask)
    requires lo + ln + 8 * count <= payload.Length
    modifies payload
    ensures forall j :: 0 <= j < payload.Length ==>
              payload[j] == if lo + ln <= j < lo + ln + 8 * count
                            then MaskedByte(old(payload[j]), mask, j - lo - ln) else old(payload[j])
  {
    for i := 0 to count
      invariant forall j :: 0 <= j < payload.Length ==>
                  payload[j] == if lo + ln <= j < lo + ln + 8 * i
                                then MaskedByte(old(payload[j]), mask, j - lo - ln) else old(payload[j])
    {
      CipherWord(payload, lo + ln + 8 * i, mask);
      forall j | lo + ln + 8 * i <= j < lo + ln + 8 * (i + 1)
        ensures payload[j] == MaskedByte(old(payload[j]), mask, j - lo - ln)
      {
        WordPhase(old(payload[j]), mask, 2 * i, j - lo - ln - 8 * i);
      }
    }
  }

  /** Only the position modulo 4 matters. */
  lemma SamePhase(b: byte, mask: Mask, p: nat, q: nat)
    requires p % 4 == q % 4
    ensures MaskedByte(b, mask, p) == MaskedByte(b, mask, q)
  {
    hide Xor;
  }

  /** Positions counted from the payload, from the mask position or from the first word agree. */
  lemma Phases(offset: nat, ln: nat, k: nat)
    requires (offset % 4 + ln) % 4 == 0
    ensures (offset % 4 + k) % 4 == (offset + k) % 4
    ensures k >= ln ==> (k - ln) % 4 == (offset + k) % 4
  {
  }

  lemma InPhase(b: byte, mask: Mask, offset: nat, ln: nat, k: nat)
    requires (offset % 4 + ln) % 4 == 0
    ensures MaskedByte(b, mask, offset % 4 + k) == MaskedByte(b, mask, offset + k)
    ensures k >= ln ==> MaskedByte(b, mask, k - ln) == MaskedByte(b, mask, offset + k)
  {
    hide MaskedByte;
    Phases(offset, ln, k);
    SamePhase(b, mask, offset % 4 + k, offset + k);
    if k >= ln {
      SamePhase(b, mask, k - ln, offset + k);
    }
  }

  lemma WordPhase(b: byte, mask: Mask, i: nat, k: nat)
    ensures MaskedByte(b, mask, 4 * i + k) == MaskedByte(b, mask, k)
  {
    SamePhase(b, mask, 4 * i + k, k);
  }
}

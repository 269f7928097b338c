/** Bytes, and the conversions of encoding/binary between bytes and integers.
    Bytes are bit-vectors so that masks and flags are the source's own; lengths are
    integers. `Value` and `Narrow` are the only places where the two meet. */
module Bytes {
  type byte = bv8

  /** A Go int64 that is not negative: the length of a slice or of a frame. */
  const MAX_LENGTH := 0x7FFF_FFFF_FFFF_FFFF
  type Length = n: int | 0 <= n <= MAX_LENGTH

  function Value(b: byte): (n: nat)
    ensures n < 256
  {
    b as int
  }

  /** byte(n) for n in range. */
  function Narrow(n: nat): byte
    requires n < 256
  {
    n as bv8
  }

  lemma SuccValue(b: byte)
    requires b < 255
    ensures Value(b + 1) == Value(b) + 1
  {
  }

  lemma {:induction false} EveryValueIsReached(n: nat) returns (b: byte)
    requires n < 256
    ensures Value(b) == n
  {
    if n == 0 {
      b := 0;
    } else {
      b := EveryValueIsReached(n - 1);
      SuccValue(b);
      b := b + 1;
    }
  }

  /** Narrowing and widening undo each other. */
  lemma ValueOfNarrow(n: nat)
    requires n < 256
    ensures Value(Narrow(n)) == n
  {
    var b := EveryValueIsReached(n);
  }

  lemma NarrowOfValue(b: byte)
    ensures Narrow(Value(b)) == b
  {
  }

  /** 256 to the k. */
  function Base(k: nat): (r: nat)
    ensures r > 0
  {
    if k == 0 then 1 else 256 * Base(k - 1)
  }

  /** The k low-order bytes of n, most significant first (binary.BigEndian.PutUint). */
  function BigEndian(n: nat, k: nat): (s: seq<byte>)
    ensures |s| == k
  {
    if k == 0 then [] else BigEndian(n / 256, k - 1) + [Narrow(n % 256)]
  }

  /** The number that s spells, most significant byte first (binary.BigEndian.Uint). */
  function FromBigEndian(s: seq<byte>): (n: nat)
  {
    if s == [] then 0 else 256 * FromBigEndian(s[..|s| - 1]) + Value(s[|s| - 1])
  }

  lemma {:induction false} FromBigEndianBound(s: seq<byte>)
    ensures FromBigEndian(s) < Base(|s|)
  {
    hide Value;
    if s != [] {
      FromBigEndianBound(s[..|s| - 1]);
    }
  }

  lemma BigEndianLast(n: nat, k: nat)
    requires 0 < k && n < Base(k)
    ensures BigEndian(n, k) == BigEndian(n / 256, k - 1) + [Narrow(n % 256)] && n / 256 < Base(k - 1)
  {
    hide Narrow;
  }

  lemma FromBigEndianLast(s: seq<byte>, b: byte)
    ensures FromBigEndian(s + [b]) == 256 * FromBigEndian(s) + Value(b)
  {
    hide Value;
    assert (s + [b])[..|s|] == s;
  }

  lemma {:induction false} BigEndianRoundTrip(n: nat, k: nat)
    requires n < Base(k)
    ensures FromBigEndian(BigEndian(n, k)) == n
  {
    hide Value, Narrow, FromBigEndian, BigEndian;
    if k == 0 {
      NoBytes(n);
    } else {
      BigEndianLast(n, k);
      BigEndianRoundTrip(n / 256, k - 1);
      ValueOfNarrow(n % 256);
      FromBigEndianLast(BigEndian(n / 256, k - 1), Narrow(n % 256));
    }
  }

  lemma NoBytes(n: nat)
    ensures BigEndian(n, 0) == [] && FromBigEndian([]) == 0
  {
  }

  lemma BigEndianStep(q: nat, r: nat, k: nat)
    requires r < 256
    ensures BigEndian(256 * q + r, k + 1) == BigEndian(q, k) + [Narrow(r)]
  {
    hide Narrow;
    var n := 256 * q + r;
    assert n / 256 == q && n % 256 == r;
  }

  lemma {:induction false} FromBigEndianRoundTrip(s: seq<byte>)
    ensures BigEndian(FromBigEndian(s), |s|) == s
  {
    hide Value, Narrow;
    if s != [] {
      var init, last := s[..|s| - 1], s[|s| - 1];
      FromBigEndianRoundTrip(init);
      NarrowOfValue(last);
      BigEndianStep(FromBigEndian(init), Value(last), |init|);
      assert s == init + [last];
    }
  }

  /** The top bit of the first byte says whether the number reaches the upper half. */
  lemma {:induction false} TopBit(s: seq<byte>)
    requires |s| > 0
    ensures s[0] < 0x80 <==> FromBigEndian(s) < 128 * Base(|s| - 1)
  {
    if |s| == 1 {
      assert FromBigEndian(s[..0]) == 0;
      assert s[0] < 0x80 <==> Value(s[0]) < 128;
    } else {
      TopBit(s[..|s| - 1]);
      var h := FromBigEndian(s[..|s| - 1]);
      assert FromBigEndian(s) < 256 * (h + 1);
      assert s[..|s| - 1][0] == s[0];
    }
  }

  /** The pieces of a stream put together. */
  function Joined(chunks: seq<seq<byte>>): seq<byte> {
    if chunks == [] then [] else Joined(chunks[..|chunks| - 1]) + chunks[|chunks| - 1]
  }

  /** What has come in so far is the start of what will have come in. */
  lemma {:induction false} JoinedPrefix(chunks: seq<seq<byte>>, i: nat)
    requires i <= |chunks|
    ensures Joined(chunks[..i]) <= Joined(chunks)
    decreases |chunks| - i
  {
    if i < |chunks| {
      JoinedPrefix(chunks, i + 1);
      assert chunks[..i + 1][..i] == chunks[..i];
    } else {
      assert chunks[..i] == chunks;
    }
  }
}

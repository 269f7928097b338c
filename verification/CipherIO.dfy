/** repo/ws/wsutil/cipher.go: the XOR cipher over a stream, with a running position. */
module CipherIO {
  import opened Bytes
  import opened Cipher
  import opened Streams

  class CipherReader {
    var mask: Mask
    var pos: nat

    constructor (mask: Mask)
      ensures this.mask == mask && pos == 0
    {
      this.mask, pos := mask, 0;
    }

    method Reset(mask: Mask)
      modifies this
      ensures this.mask == mask && pos == 0
    {
      this.mask, pos := mask, 0;
    }

    /** What Read does with the n bytes that its source has put into p[lo:]. */
    method Unmask(p: array<byte>, lo: nat, n: nat)
      requires lo + n <= p.Length
      modifies this, p
      ensures p[lo..lo + n] == Masked(old(p[lo..lo + n]), mask, old(pos))
      ensures p[..lo] == old(p[..lo]) && p[lo + n..] == old(p[lo + n..])
      ensures mask == old(mask) && pos == old(pos) + n
    {
      Cipher.Cipher(p, lo, lo + n, mask, pos);
      pos := pos + n;
    }
  }

  class CipherWriter {
    const w: Sink
    const mask: Mask
    var pos: nat

    constructor (w: Sink, mask: Mask)
      ensures this.w == w && this.mask == mask && pos == 0
    {
      this.w, this.mask, pos := w, mask, 0;
    }

    /** Write ciphers a copy of p; when the sink takes only part of it, only that part counts. */
    method Write(p: seq<byte>) returns (n: nat, err: Option<Error>)
      modifies this, w
      ensures n <= |p| && pos == old(pos) + n
      ensures w.data == old(w.data) + Masked(p[..n], mask, old(pos))
      ensures err == None ==> n == |p|
    {
      var cp := new byte[|p|](i requires 0 <= i < |p| => p[i]);
      assert cp[..] == p && cp[0..|p|] == p;
      Cipher.Cipher(cp, 0, |p|, mask, pos);
      assert cp[..] == cp[0..|p|];
      n, err := w.Write(cp[..]);
      assert p == p[..n] + p[n..];
      MaskedConcat(p[..n], p[n..], mask, pos);
      pos := pos + n;
    }
  }

  /** A stream ciphered chunk by chunk with the running position is ciphered as in one call. */
  method CipherChunks(w: Sink, mask: Mask, chunks: seq<seq<byte>>) returns (err: Option<Error>, ghost taken: seq<byte>)
    modifies w
    ensures w.data == old(w.data) + Masked(taken, mask, 0)
    ensures err == None ==> taken == Joined(chunks)
  {
    var c := new CipherWriter(w, mask);
    taken, err := [], None;
    assert Masked([], mask, 0) == [];
    var i := 0;
    while i < |chunks| && err == None
      invariant 0 <= i <= |chunks| && c.w == w && c.mask == mask
      invariant c.pos == |taken| && w.data == old(w.data) + Masked(taken, mask, 0)
      invariant err == None ==> taken == Joined(chunks[..i])
    {
      var n;
      n, err := c.Write(chunks[i]);
      MaskedConcat(taken, chunks[i][..n], mask, 0);
      taken := taken + chunks[i][..n];
      i := i + 1;
      assert chunks[..i][..i - 1] == chunks[..i - 1];
    }
    assert err == None ==> chunks[..i] == chunks;
  }
}

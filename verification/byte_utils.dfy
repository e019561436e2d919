/** Little-endian 16-bit fields. */
module ByteUtils {
  function ReadLe16(lo: bv8, hi: bv8): nat {
    lo as nat + 256 * (hi as nat)
  }

  lemma NextByte(b: bv8)
    requires b != 255
    ensures (b + 1) as nat == b as nat + 1
  {
  }

  /** The byte of a value; counting up keeps the solver away from converting integers to bit vectors. */
  function ByteOf(n: nat): (b: bv8)
    requires n < 256
    ensures b as nat == n
  {
    if n == 0 then 0
    else
      NextByte(ByteOf(n - 1));
      ByteOf(n - 1) + 1
  }

  function WriteLe16(n: nat): (s: seq<bv8>)
    requires n < 65536
    ensures |s| == 2
  {
    [ByteOf(n % 256), ByteOf(n / 256)]
  }

  lemma {:induction false} Le16RoundTrip(n: nat)
    requires n < 65536
    ensures ReadLe16(WriteLe16(n)[0], WriteLe16(n)[1]) == n
  {
    assert ByteOf(n % 256) as nat == n % 256 && ByteOf(n / 256) as nat == n / 256;
  }
}

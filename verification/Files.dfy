/** Files as sequences of bytes. */
module Files {
  import opened Common
  import opened Words

  function Zeros(n: nat): (z: Bytes)
    ensures |z| == n && forall i :: 0 <= i < n ==> z[i] == 0
  {
    seq(n, _ => 0)
  }

  /** A word of zeros is 0. */
  lemma {:induction false} ZerosWord(n: nat)
    ensures FromLe(Zeros(n)) == 0
  {
    if n > 0 {
      ZerosWord(n - 1);
      assert Zeros(n)[1..] == Zeros(n - 1);
    }
  }

  /** The file after writing d at offset off; a gap reads as zeros. */
  function WriteAt(b: Bytes, off: nat, d: Bytes): Bytes {
    if off > |b| then b + Zeros(off - |b|) + d
    else b[..off] + d + (if off + |d| < |b| then b[off + |d|..] else [])
  }
}

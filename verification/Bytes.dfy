/** Byte strings, little-endian integers and a byte file with seek-and-write. */
module Bytes {

  type byte = b: int | 0 <= b < 256
  type str = seq<byte>

  datatype Option<+T> = None | Some(value: T)

  const UINT32 := 0x1_0000_0000
  type uint32 = n: int | 0 <= n < UINT32

  // Unsigned 32-bit increment and decrement wrap around.
  function Inc32(n: uint32): uint32 { if n + 1 == UINT32 then 0 else n + 1 }
  function Dec32(n: uint32): uint32 { Sub32(n, 1) }
  function Sub32(n: uint32, k: uint32): uint32 { if k <= n then n - k else n - k + UINT32 }

  function Zeros(n: nat): (s: str)
    ensures |s| == n && forall i :: 0 <= i < n ==> s[i] == 0
  {
    seq(n, _ => 0)
  }

  // A zero-padded field of fixed width.
  function PadTo(s: str, width: nat): (r: str)
    requires |s| <= width
    ensures |r| == width && s <= r
    ensures forall i :: |s| <= i < width ==> r[i] == 0
  {
    s + Zeros(width - |s|)
  }

  predicate NulFree(s: str) { forall i :: 0 <= i < |s| ==> s[i] != 0 }

  // The C string that starts a field: everything before the first zero.
  function CString(s: str): (r: str)
    ensures r <= s && NulFree(r)
    ensures |r| < |s| ==> s[|r|] == 0
  {
    if s == [] || s[0] == 0 then [] else [s[0]] + CString(s[1..])
  }

  lemma CStringUnique(s: str, r: str)
    requires r <= s && NulFree(r) && (|r| < |s| ==> s[|r|] == 0)
    ensures CString(s) == r
  {
    var c := CString(s);
    assert |c| == |r|;
    assert c == s[..|c|] == r;
  }

  lemma CStringOfPadded(s: str, width: nat)
    requires NulFree(s) && |s| <= width
    ensures CString(PadTo(s, width)) == s
  {
    CStringUnique(PadTo(s, width), s);
  }

  // Little-endian encoding of the low k bytes of n.
  function LE(n: nat, k: nat): (r: str)
    ensures |r| == k
  {
    if k == 0 then [] else [n % 256] + LE(n / 256, k - 1)
  }

  function FromLE(s: str): nat
  {
    if s == [] then 0 else s[0] + 256 * FromLE(s[1..])
  }

  function Pow256(k: nat): nat { if k == 0 then 1 else 256 * Pow256(k - 1) }

  lemma {:induction false} LERoundTrip(n: nat, k: nat)
    requires n < Pow256(k)
    ensures FromLE(LE(n, k)) == n
  {
    if k > 0 {
      LERoundTrip(n / 256, k - 1);
      assert LE(n, k)[1..] == LE(n / 256, k - 1);
    }
  }

  lemma LE4RoundTrip(n: uint32)
    ensures FromLE(LE(n, 4)) == n
  {
    assert Pow256(4) == 256 * (256 * (256 * (256 * 1))) == UINT32;
    LERoundTrip(n, 4);
  }

  // lseek to pos followed by write: bytes past the end are zero-filled, nothing is truncated.
  function WriteAt(f: str, pos: nat, data: str): (r: str)
    ensures |r| == if pos + |data| > |f| then pos + |data| else |f|
    ensures forall i {:trigger r[i]} :: 0 <= i < |r| ==>
              r[i] == if pos <= i < pos + |data| then data[i - pos] else if i < |f| then f[i] else 0
  {
    (if pos <= |f| then f[..pos] else f + Zeros(pos - |f|))
    + data
    + (if pos + |data| < |f| then f[pos + |data|..] else [])
  }
}

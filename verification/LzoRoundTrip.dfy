/** The central promise of the codec: what was compressed comes back. */
module LzoRoundTrip {
  import opened Bits
  import opened LzoFormat
  import opened LzoCompress
  import opened LzoDecompress

  /** Compresses `s` with a work area holding anything at all, then decompresses into `cap` bytes. */
  method RoundTrip(s: seq<byte>, wrkmem: seq<int>, cap: nat)
    returns (packed: seq<byte>, code: int, back: seq<byte>)
    requires |wrkmem| == D_SIZE
    ensures |packed| <= |s| + |s| / 16 + 4
    ensures Constant(s) && |s| > 18 ==> |packed| <= |s| / 255 + 13
    ensures cap >= |s| ==> code == LZO_E_OK && back == s
    ensures cap < |s| ==> code == LZO_E_OUTPUT_OVERRUN && back <= s && |back| <= cap
  {
    var dict := new int[D_SIZE](i requires 0 <= i < D_SIZE => wrkmem[i]);
    var out := new byte[|s| + |s| / 16 + 4];
    var status, n := Compress(s, out, dict);
    packed := out[..n];
    var buffer := new byte[cap];
    var m;
    code, m := DecompressSafe(packed, buffer, cap);
    back := buffer[..m];
  }
}

/** Byte helpers of utils.js: `xor_bytes` and `BytesArray`. */
module ByteHelpers {
  import opened Common

  type Byte = bv8

  /**
   * `xor_bytes`: the element-wise XOR of two byte strings of the same
   * length; no result when the lengths differ.
   */
  function XorBytes(a: seq<Byte>, b: seq<Byte>): (r: Option<seq<Byte>>)
    ensures r.Some? <==> |a| == |b|
    ensures r.Some? ==> |r.value| == |a| && forall i :: 0 <= i < |a| ==> r.value[i] == a[i] ^ b[i]
  {
    if |a| == |b| then Some(seq(|a|, i requires 0 <= i < |a| => a[i] ^ b[i])) else None
  }

  /** XOR with the same pad twice gives the original bytes back. */
  lemma XorUndoes(a: seq<Byte>, b: seq<Byte>)
    requires |a| == |b|
    ensures XorBytes(XorBytes(a, b).value, b) == Some(a)
  {
    var once := XorBytes(a, b).value;
    var twice := XorBytes(once, b).value;
    forall i | 0 <= i < |a| ensures twice[i] == a[i] {
      assert twice[i] == (a[i] ^ b[i]) ^ b[i];
    }
    assert twice == a;
  }

  /** The order of the operands does not matter. */
  lemma XorCommutes(a: seq<Byte>, b: seq<Byte>)
    ensures XorBytes(a, b) == XorBytes(b, a)
  {
    if |a| == |b| {
      forall i | 0 <= i < |a| ensures a[i] ^ b[i] == b[i] ^ a[i] { }
      assert XorBytes(a, b).value == XorBytes(b, a).value;
    }
  }

  /** The character codes of a string, one per character. */
  function CharCodes(s: string): (r: seq<int>)
    ensures |r| == |s|
    ensures forall i :: 0 <= i < |s| ==> r[i] == s[i] as int
  {
    if |s| == 0 then [] else CharCodes(s[..|s| - 1]) + [s[|s| - 1] as int]
  }

  /** Different strings have different codes. */
  lemma CharCodesInjective(s: string, t: string)
    requires CharCodes(s) == CharCodes(t)
    ensures s == t
  {
    assert |s| == |t|;
    forall i | 0 <= i < |s| ensures s[i] == t[i] {
      assert CharCodes(s)[i] == CharCodes(t)[i];
    }
  }

  /** `BytesArray`: appends the code of each character of `str` in turn. */
  method BytesArray(str: string) returns (bytes: seq<int>)
    ensures bytes == CharCodes(str)
  {
    bytes := [];
    var i := 0;
    while i < |str|
      invariant 0 <= i <= |str|
      invariant bytes == CharCodes(str[..i])
    {
      var code := str[i] as int;
      assert str[..i + 1][..i] == str[..i];
      bytes := bytes + [code];
      i := i + 1;
    }
    assert str[..i] == str;
  }
}

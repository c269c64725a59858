/**
 * How the server stores a face encoding in the `users.face_encoding` column: the raw bytes
 * of the NumPy `float64` array (little-endian, eight bytes per component), written as
 * base 64 text, and read back with `np.frombuffer(base64.b64decode(text), dtype=np.float64)`.
 */
module StoredEncoding {
  import opened Common
  import Base64

  function Pow256(n: nat): (p: nat)
    ensures p >= 1
  {
    if n == 0 then 1 else 256 * Pow256(n - 1)
  }

  const WordBytes: nat := 8

  /** A `float64` component, as its 64-bit IEEE 754 bit pattern. */
  type Float64 = w: int | 0 <= w < 0x1_0000_0000_0000_0000

  /** A face encoding (128 components for the face_recognition model). */
  type Signature = seq<Float64>

  /** The `n` least significant bytes of `w`, least significant first. */
  function LittleEndian(w: nat, n: nat): (bs: seq<Byte>)
    ensures |bs| == n
  {
    if n == 0 then [] else [w % 256] + LittleEndian(w / 256, n - 1)
  }

  /** The number whose little-endian bytes are `bs`. */
  function ValueOf(bs: seq<Byte>): (w: nat)
    ensures w < Pow256(|bs|)
  {
    if bs == [] then 0 else bs[0] + 256 * ValueOf(bs[1..])
  }

  lemma {:induction false} ValueOfLittleEndian(w: nat, n: nat)
    requires w < Pow256(n)
    ensures ValueOf(LittleEndian(w, n)) == w
  {
    if n > 0 {
      var bs := LittleEndian(w, n);
      assert w / 256 < Pow256(n - 1);
      ValueOfLittleEndian(w / 256, n - 1);
      assert bs[1..] == LittleEndian(w / 256, n - 1);
    }
  }

  lemma {:induction false} LittleEndianValueOf(bs: seq<Byte>)
    ensures LittleEndian(ValueOf(bs), |bs|) == bs
  {
    if bs != [] {
      var w := ValueOf(bs);
      var t := ValueOf(bs[1..]);
      assert w % 256 == bs[0] && w / 256 == t;
      LittleEndianValueOf(bs[1..]);
      assert [bs[0]] + bs[1..] == bs;
    }
  }

  /**
   * The buffer `b64encode(encoding)` reads from the array: each component as eight
   * little-endian bytes, in order.
   */
  function ToBytes(sig: Signature): (bs: seq<Byte>)
    ensures |bs| == WordBytes * |sig|
  {
    if sig == [] then [] else LittleEndian(sig[0], WordBytes) + ToBytes(sig[1..])
  }

  /**
   * `np.frombuffer(bs, dtype=np.float64)`: `None` where NumPy raises `ValueError` because the
   * buffer is not a whole number of eight-byte components.
   */
  function FromBytes(bs: seq<Byte>): (r: Option<Signature>)
    ensures r.Some? <==> |bs| % WordBytes == 0
    ensures r.Some? ==> WordBytes * |r.value| == |bs|
    decreases |bs|
  {
    if |bs| % WordBytes != 0 then None
    else if bs == [] then Some([])
    else
      var w := ValueOf(bs[..WordBytes]);
      assert w < 0x1_0000_0000_0000_0000 by { assert Pow256(WordBytes) == 0x1_0000_0000_0000_0000; }
      var rest := FromBytes(bs[WordBytes..]);
      Some([w] + rest.value)
  }

  lemma {:induction false} FromBytesToBytes(sig: Signature)
    ensures FromBytes(ToBytes(sig)) == Some(sig)
  {
    if sig != [] {
      var bs := ToBytes(sig);
      var head := LittleEndian(sig[0], WordBytes);
      assert bs[..WordBytes] == head && bs[WordBytes..] == ToBytes(sig[1..]);
      assert Pow256(WordBytes) == 0x1_0000_0000_0000_0000;
      ValueOfLittleEndian(sig[0], WordBytes);
      FromBytesToBytes(sig[1..]);
      assert [sig[0]] + sig[1..] == sig;
    }
  }

  /** The text written to the `face_encoding` column at registration. */
  function Store(sig: Signature): (t: string)
    ensures |t| == 4 * ((WordBytes * |sig| + 2) / 3)
  {
    Base64.Encode(ToBytes(sig))
  }

  /** Reads a `face_encoding` column back; `None` where the server's read raises. */
  function Load(text: string): (r: Option<Signature>)
    ensures r.Some? <==> Base64.Decode(text).Some? && |Base64.Decode(text).value| % WordBytes == 0
    ensures r.Some? ==> WordBytes * |r.value| == |Base64.Decode(text).value|
  {
    match Base64.Decode(text)
    case None => None
    case Some(bs) => FromBytes(bs)
  }

  /** A stored encoding reads back as exactly the signature that was stored. */
  lemma LoadStore(sig: Signature)
    ensures Load(Store(sig)) == Some(sig)
  {
    Base64.DecodeEncode(ToBytes(sig));
    FromBytesToBytes(sig);
  }

  /** Storing is injective: two different signatures never share a stored text. */
  lemma StoreInjective(a: Signature, b: Signature)
    requires Store(a) == Store(b)
    ensures a == b
  {
    LoadStore(a);
    LoadStore(b);
  }
}

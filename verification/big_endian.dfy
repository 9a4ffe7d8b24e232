/** Unsigned integers as byte strings. The block header stores every
    multi-byte field most significant byte first. */
module BigEndian {

  /** One octet, as an `unsigned char` holds it. */
  type byte = x: int | 0 <= x < 256

  /** Byte order of a host's memory. */
  datatype ByteOrder = Big | Little

  /** One more than the largest value `n` bytes can hold. */
  function Pow256(n: nat): (r: nat)
    ensures r >= 1
  {
    if n == 0 then 1 else 256 * Pow256(n - 1)
  }

  /** `n` zero bytes. */
  function Zeros(n: nat): (r: seq<byte>)
    ensures |r| == n
    ensures forall i :: 0 <= i < n ==> r[i] == 0
  {
    seq(n, _ => 0)
  }

  /** The number a byte string denotes when read most significant byte first. */
  function Decode(s: seq<byte>): (v: nat)
    ensures v < Pow256(|s|)
  {
    if |s| == 0 then 0 else 256 * Decode(s[..|s| - 1]) + s[|s| - 1]
  }

  /** `width` bytes holding `v`, most significant byte first. */
  function Encode(v: nat, width: nat): (r: seq<byte>)
    requires v < Pow256(width)
    ensures |r| == width
    ensures Decode(r) == v
  {
    if width == 0 then []
    else
      var high := Encode(v / 256, width - 1);
      assert (high + [v % 256])[..width - 1] == high;
      high + [v % 256]
  }

  /** Encoding is also a left inverse: every byte string is the encoding of
      the number it denotes, so no two strings of one width decode alike. */
  lemma {:induction false} EncodeDecode(s: seq<byte>)
    ensures Encode(Decode(s), |s|) == s
  {
    if |s| > 0 {
      var p := s[..|s| - 1];
      EncodeDecode(p);
      assert Decode(s) / 256 == Decode(p);
      assert Decode(s) % 256 == s[|s| - 1];
      assert s == p + [s[|s| - 1]];
    }
  }

  /** Zero encodes as zero bytes at every width. */
  lemma {:induction false} EncodeZero(width: nat)
    ensures Encode(0, width) == Zeros(width)
  {
    if width > 0 {
      EncodeZero(width - 1);
      assert Zeros(width) == Zeros(width - 1) + [0];
    }
  }

  function Reverse(s: seq<byte>): (r: seq<byte>)
    ensures |r| == |s|
    ensures forall i :: 0 <= i < |s| ==> r[i] == s[|s| - 1 - i]
  {
    if |s| == 0 then [] else Reverse(s[1..]) + [s[0]]
  }

  /** The bytes of a `width`-byte unsigned integer object holding `v`, in the
      order they lie in the memory of a host of byte order `host`. */
  function HostLayout(host: ByteOrder, v: nat, width: nat): (r: seq<byte>)
    requires v < Pow256(width)
    ensures |r| == width
  {
    match host
    case Big => Encode(v, width)
    case Little => Reverse(Encode(v, width))
  }

  /** `output<T>` as written: it appends the object's memory bytes from the
      last address to the first, whatever the host's byte order. */
  function OutputAsWritten(host: ByteOrder, v: nat, width: nat): (r: seq<byte>)
    requires v < Pow256(width)
    ensures |r| == width
    ensures forall k :: 0 <= k < width ==> r[k] == HostLayout(host, v, width)[width - 1 - k]
  {
    Reverse(HostLayout(host, v, width))
  }

  /** On a little-endian host the copy from the last address is big-endian. */
  lemma OutputAsWrittenLittleHost(v: nat, width: nat)
    requires v < Pow256(width)
    ensures OutputAsWritten(Little, v, width) == Encode(v, width)
  {
    var e := Encode(v, width);
    assert Reverse(Reverse(e)) == e;
  }

  /** On a big-endian host the same copy is little-endian: the 16-bit
      header size 48 comes out as the bytes 0x30 0x00, which a big-endian
      reader takes for 12288. */
  lemma OutputAsWrittenBigHost()
    ensures OutputAsWritten(Big, 48, 2) == [48, 0]
    ensures Decode(OutputAsWritten(Big, 48, 2)) == 12288
  {
    EncodeZero(1);
    assert Zeros(1) == [0];
    assert Encode(48, 2) == Encode(0, 1) + [48];
    assert Reverse([0, 48]) == [48, 0] by {
      assert [0, 48][1..] == [48];
      assert Reverse([48]) == [48] by {
        assert [48][1..] == [];
      }
    }
    assert Decode([48, 0]) == 256 * Decode([48]) by {
      assert [48, 0][..1] == [48];
    }
    assert Decode([48]) == 48 by {
      assert [48][..0] == [];
    }
  }
}

/** Little-endian byte codec: the `Binary_Get_*` primitives of inc/sgjw.c.
    The source reads the buffer without any bounds check; here every primitive
    requires the bytes it touches to lie inside the buffer, and the field
    decoder (module Fields) checks that before it calls one. */
module Codec {
  import opened Types

  function Pow256(n: nat): (r: nat)
    ensures r > 0
  {
    if n == 0 then 1 else 256 * Pow256(n - 1)
  }

  lemma {:induction false} Pow256Monotone(a: nat, b: nat)
    requires a <= b
    ensures Pow256(a) <= Pow256(b)
    decreases b
  {
    if a < b {
      Pow256Monotone(a, b - 1);
    }
  }

  /** The widths of the source's 32- and 64-bit reads. */
  lemma Pow256Widths()
    ensures Pow256(4) == 0x1_0000_0000
    ensures Pow256(8) == 0x1_0000_0000_0000_0000
  {
    assert Pow256(4) == 0x1_0000_0000;
  }

  /** The unsigned integer whose little-endian encoding is `bytes`, that is
      the sum of bytes[i] * 256^i; it fits in 8 * |bytes| bits. */
  function UintLE(bytes: seq<byte>): (r: nat)
    ensures r < Pow256(|bytes|)
  {
    if bytes == [] then 0 else bytes[0] + 256 * UintLE(bytes[1..])
  }

  /** Appending a more significant byte adds it at weight 256^|bytes|: the
      loop step that ORs in byte i shifted left by 8 · i bits. */
  lemma {:induction false} UintLEAppendByte(bytes: seq<byte>, b: byte)
    ensures UintLE(bytes + [b]) == UintLE(bytes) + b * Pow256(|bytes|)
    decreases |bytes|
  {
    if bytes != [] {
      var rest := bytes[1..];
      assert (bytes + [b])[1..] == rest + [b];
      UintLEAppendByte(rest, b);
      var p := Pow256(|rest|);
      assert Pow256(|bytes|) == 256 * p;
      assert 256 * (b * p) == b * (256 * p);
    }
  }

  /** The decoding loses nothing: equal values of equal width come from equal
      byte strings. */
  lemma {:induction false} UintLEInjective(s: seq<byte>, t: seq<byte>)
    requires |s| == |t|
    requires UintLE(s) == UintLE(t)
    ensures s == t
    decreases |s|
  {
    if s != [] {
      assert s[0] == t[0] && UintLE(s[1..]) == UintLE(t[1..]) by {
        var k := UintLE(t[1..]) - UintLE(s[1..]);
        assert s[0] - t[0] == 256 * k;
      }
      UintLEInjective(s[1..], t[1..]);
      assert s == [s[0]] + s[1..] && t == [t[0]] + t[1..];
    }
  }

  /** `Binary_Get_Uint_L2B`: reads min(nbytes, 8) bytes starting at `offset`,
      least significant first; bytes past the eighth are never looked at. */
  method GetUint(buffer: seq<byte>, offset: nat, nbytes: nat) returns (value: uint64)
    requires offset + Min(nbytes, 8) <= |buffer|
    ensures value == UintLE(buffer[offset .. offset + Min(nbytes, 8)])
  {
    var v: nat := 0;
    var i := 0;
    while i < nbytes && i < 8
      invariant 0 <= i <= Min(nbytes, 8)
      invariant v == UintLE(buffer[offset .. offset + i])
    {
      // v < 256^i, so OR-ing in a byte shifted by 8 * i is an addition
      UintLEAppendByte(buffer[offset .. offset + i], buffer[offset + i]);
      assert buffer[offset .. offset + i + 1] == buffer[offset .. offset + i] + [buffer[offset + i]];
      v := v + buffer[offset + i] * Pow256(i);
      i := i + 1;
    }
    Pow256Monotone(i, 8);
    value := v;
  }

  /** `Binary_Get_Float32_L2B`: the 4-byte read, reinterpreted as a float.
      Floats are kept as their IEEE-754 bit patterns, so the reinterpretation
      through the source's union is the identity on those bits. */
  method GetFloat32(buffer: seq<byte>, offset: nat) returns (bits: uint32)
    requires offset + 4 <= |buffer|
    ensures bits == UintLE(buffer[offset .. offset + 4])
  {
    var u := GetUint(buffer, offset, 4);
    bits := u;
  }

  /** `Binary_Get_Float64_L2B`: the 8-byte read, reinterpreted as a double. */
  method GetFloat64(buffer: seq<byte>, offset: nat) returns (bits: uint64)
    requires offset + 8 <= |buffer|
    ensures bits == UintLE(buffer[offset .. offset + 8])
  {
    bits := GetUint(buffer, offset, 8);
  }

  /** `Binary_Get_Char`: copies `length` bytes verbatim into `ret` and writes a
      NUL terminator at index `length`, so `ret` must hold length + 1 bytes. */
  method GetChars(buffer: seq<byte>, offset: nat, length: nat, ret: array<byte>)
    requires offset + length <= |buffer|
    requires length < ret.Length
    modifies ret
    ensures ret[..length] == buffer[offset .. offset + length]
    ensures ret[length] == 0
    ensures ret[length + 1..] == old(ret[length + 1..])
  {
    for i := 0 to length
      invariant ret[..i] == buffer[offset .. offset + i]
      invariant ret[i..] == old(ret[i..])
    {
      ret[i] := buffer[offset + i];
      assert ret[i + 1..] == old(ret[i + 1..]);
    }
    ret[length] := 0;
    assert ret[length + 1..] == old(ret[length + 1..]);
  }
}

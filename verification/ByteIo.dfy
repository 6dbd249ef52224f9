/**
  byte_io.hpp: little-endian encoding of unsigned integers of any byte width.
 */
module ByteIo {
  import opened Common

  type Bytes = seq<byte>

  function Zeros(n: nat): (s: Bytes)
    ensures |s| == n
    ensures forall i :: 0 <= i < n ==> s[i] == 0
  {
    seq(n, _ => 0)
  }

  function Pow256(n: nat): (p: nat)
    ensures p >= 1
  {
    if n == 0 then 1 else 256 * Pow256(n - 1)
  }

  // The low n bytes of v, least significant first.
  function LittleEndian(n: nat, v: nat): (s: Bytes)
    ensures |s| == n
  {
    if n == 0 then [] else [v % 256] + LittleEndian(n - 1, v / 256)
  }

  function FromLittleEndian(s: Bytes): nat {
    if s == [] then 0 else s[0] + 256 * FromLittleEndian(s[1..])
  }

  // The value without its k low bytes.
  function Dropped(v: nat, k: nat): nat {
    if k == 0 then v else Dropped(v / 256, k - 1)
  }

  // Byte k is the k-th digit of the value in base 256, the lowest one first.
  lemma {:induction false} LittleEndianDigits(n: nat, v: nat, k: nat)
    requires k < n
    ensures LittleEndian(n, v)[k] == Dropped(v, k) % 256
  {
    if k > 0 {
      LittleEndianDigits(n - 1, v / 256, k - 1);
    }
  }

  // Reading back what was written gives the value truncated to the width.
  lemma {:induction false} LittleEndianRoundTrip(n: nat, v: nat)
    requires v < Pow256(n)
    ensures FromLittleEndian(LittleEndian(n, v)) == v
  {
    if n > 0 {
      LittleEndianRoundTrip(n - 1, v / 256);
      assert LittleEndian(n, v)[1..] == LittleEndian(n - 1, v / 256);
    }
  }

  // Writing back what was read gives the same bytes, and the value fits the width.
  lemma {:induction false} FromLittleEndianInverse(s: Bytes)
    ensures FromLittleEndian(s) < Pow256(|s|)
    ensures LittleEndian(|s|, FromLittleEndian(s)) == s
  {
    if s != [] {
      var rest := FromLittleEndian(s[1..]);
      FromLittleEndianInverse(s[1..]);
      assert (s[0] + 256 * rest) % 256 == s[0] && (s[0] + 256 * rest) / 256 == rest;
      assert s == [s[0]] + s[1..];
    }
  }

  lemma {:induction false} FromLittleEndianSnoc(s: Bytes, b: byte)
    ensures FromLittleEndian(s + [b]) == FromLittleEndian(s) + b * Pow256(|s|)
  {
    if s == [] {
      assert [b][1..] == [];
    } else {
      FromLittleEndianSnoc(s[1..], b);
      assert (s + [b])[1..] == s[1..] + [b];
      assert 256 * (b * Pow256(|s| - 1)) == b * Pow256(|s|);
    }
  }

  function Splice(bytes: Bytes, offset: nat, s: Bytes): (r: Bytes)
    requires offset + |s| <= |bytes|
    ensures |r| == |bytes|
    ensures forall i :: 0 <= i < |r| ==> r[i] == if offset <= i < offset + |s| then s[i - offset] else bytes[i]
  {
    bytes[..offset] + s + bytes[offset + |s|..]
  }

  // AppendByte and the growing std::vector are a sequence handed in and out.
  method AppendLittleEndian(bytes: Bytes, width: nat, value: nat) returns (out: Bytes)
    ensures out == bytes + LittleEndian(width, value)
  {
    out := bytes;
    var shifted: nat := value;            // value >> 8 * k
    for k := 0 to width
      invariant out + LittleEndian(width - k, shifted) == bytes + LittleEndian(width, value)
    {
      ghost var before := out;
      out := out + [shifted % 256];
      shifted := shifted / 256;
      assert before + LittleEndian(width - k, shifted * 256 + out[|before|]) == out + LittleEndian(width - k - 1, shifted);
    }
  }

  // None when fewer than width bytes remain. Each byte is or-ed into bits that are still
  // zero, which is an addition.
  method ReadLittleEndian(bytes: Bytes, offset: nat, width: nat) returns (ok: bool, next: nat, value: nat)
    ensures ok <==> offset + width <= |bytes|
    ensures ok ==> next == offset + width && value == FromLittleEndian(bytes[offset..next])
    ensures !ok ==> next == offset
  {
    next, value := offset, 0;
    if offset > |bytes| || |bytes| - offset < width {
      return false, next, value;
    }
    var shift: nat := 1;                  // 2 to the power of 8 * k
    for k := 0 to width
      invariant next == offset + k
      invariant shift == Pow256(k)
      invariant value == FromLittleEndian(bytes[offset..next])
    {
      FromLittleEndianSnoc(bytes[offset..next], bytes[next]);
      assert bytes[offset..next + 1] == bytes[offset..next] + [bytes[next]];
      value := value + bytes[next] * shift;
      shift := 256 * shift;
      next := next + 1;
    }
    ok := true;
  }

  method WriteLittleEndianAt(bytes: array<byte>, offset: nat, width: nat, value: nat)
    requires offset + width <= bytes.Length
    modifies bytes
    ensures bytes[..] == Splice(old(bytes[..]), offset, LittleEndian(width, value))
  {
    ghost var target := LittleEndian(width, value);
    var shifted := value;
    for k := 0 to width
      invariant target[k..] == LittleEndian(width - k, shifted)
      invariant forall i :: 0 <= i < bytes.Length ==>
                  bytes[i] == if offset <= i < offset + k then target[i - offset] else old(bytes[i])
    {
      assert target[k..][0] == target[k] && target[k..][1..] == target[k + 1..];
      bytes[offset + k] := shifted % 256;
      shifted := shifted / 256;
    }
  }
}

/** The SSH wire form of an RSA public key: length-prefixed fields and multiple-precision
    integers (section 5 of RFC 4251), the `ssh-rsa` blob (section 6.6 of RFC 4253). */
module SshWire {
  import opened Wrappers

  type Byte = x: int | 0 <= x < 256

  type Bytes = seq<Byte>

  // ----- numbers ------------------------------------------------------------------

  /** The big-endian value. */
  function Value(b: Bytes): (r: nat) {
    if b == [] then 0 else Value(b[..|b| - 1]) * 256 + b[|b| - 1]
  }

  function Power256(n: nat): (r: nat)
    ensures r >= 1
  {
    if n == 0 then 1 else 256 * Power256(n - 1)
  }

  /** How a peer reads an mpint: two's complement, most significant byte first. */
  function Signed(b: Bytes): int {
    if b != [] && b[0] >= 128 then Value(b) - Power256(|b|) else Value(b)
  }

  lemma {:induction false} LeadingZeroKeepsValue(b: Bytes)
    ensures Value([0] + b) == Value(b)
  {
    if b == [] {
      assert ([0] + b)[..0] == [];
    } else {
      assert ([0] + b)[..|b|] == [0] + b[..|b| - 1];
      LeadingZeroKeepsValue(b[..|b| - 1]);
    }
  }

  // ----- the encoder ----------------------------------------------------------------

  /** `uint32`: shifts and masks work modulo 2^32. */
  function Uint32(value: nat): (r: Bytes)
    ensures |r| == 4
  {
    [(value / 0x1000000) % 256, (value / 0x10000) % 256, (value / 0x100) % 256, value % 256]
  }

  function SshField(value: Bytes): Bytes {
    Uint32(|value|) + value
  }

  /** The bytes an mpint field carries: a zero byte in front of a set top bit. */
  function MpintBytes(value: Bytes): Bytes {
    if |value| > 0 && value[0] >= 128 then [0] + value else value
  }

  function SshMpint(value: Bytes): Bytes {
    SshField(MpintBytes(value))
  }

  /** "ssh-rsa" */
  const KEY_TYPE: Bytes := [115, 115, 104, 45, 114, 115, 97]

  function Blob(e: Bytes, n: Bytes): Bytes {
    SshField(KEY_TYPE) + SshMpint(e) + SshMpint(n)
  }

  function Flatten(chunks: seq<Bytes>): Bytes {
    if chunks == [] then [] else Flatten(chunks[..|chunks| - 1]) + chunks[|chunks| - 1]
  }

  /** `concatBytes`: one buffer of the total length, filled chunk by chunk. */
  method ConcatBytes(chunks: seq<Bytes>) returns (result: array<Byte>)
    ensures fresh(result) && result[..] == Flatten(chunks)
  {
    var length := 0;
    for i := 0 to |chunks|
      invariant length == |Flatten(chunks[..i])|
    {
      assert chunks[..i + 1][..i] == chunks[..i];
      length := length + |chunks[i]|;
    }
    assert chunks[..|chunks|] == chunks;
    result := new Byte[length](_ => 0);
    var offset := 0;
    for i := 0 to |chunks|
      invariant offset == |Flatten(chunks[..i])| <= length == result.Length
      invariant result[..offset] == Flatten(chunks[..i])
    {
      PrefixIsShorter(chunks, i + 1);
      assert chunks[..i + 1][..i] == chunks[..i];
      Set(result, chunks[i], offset);
      offset := offset + |chunks[i]|;
    }
    assert result[..offset] == result[..];
  }

  /** `Uint8Array.set` */
  method Set(target: array<Byte>, chunk: Bytes, offset: nat)
    requires offset + |chunk| <= target.Length
    modifies target
    ensures target[..offset + |chunk|] == old(target[..offset]) + chunk
    ensures target[offset + |chunk|..] == old(target[offset + |chunk|..])
  {
    for k := 0 to |chunk|
      invariant target[..offset] == old(target[..offset])
      invariant target[offset..offset + k] == chunk[..k]
      invariant target[offset + |chunk|..] == old(target[offset + |chunk|..])
    {
      target[offset + k] := chunk[k];
    }
    assert target[..offset + |chunk|] == target[..offset] + target[offset..offset + |chunk|];
  }

  lemma {:induction false} PrefixIsShorter(chunks: seq<Bytes>, i: nat)
    requires i <= |chunks|
    ensures |Flatten(chunks[..i])| <= |Flatten(chunks)|
    decreases |chunks|
  {
    if i < |chunks| {
      assert chunks[..|chunks| - 1][..i] == chunks[..i];
      PrefixIsShorter(chunks[..|chunks| - 1], i);
    } else {
      assert chunks[..i] == chunks;
    }
  }

  /** The blob as the source assembles it. */
  method BuildBlob(e: Bytes, n: Bytes) returns (blob: array<Byte>)
    ensures fresh(blob) && blob[..] == Blob(e, n)
  {
    var chunks: seq<Bytes> := [SshField(KEY_TYPE), SshMpint(e), SshMpint(n)];
    blob := ConcatBytes(chunks);
    FlattenThree(chunks);
  }

  lemma FlattenThree(chunks: seq<Bytes>)
    requires |chunks| == 3
    ensures Flatten(chunks) == chunks[0] + chunks[1] + chunks[2]
  {
    var two, one := chunks[..2], chunks[..1];
    assert two[..1] == one;
    assert one[..0] == [];
    assert Flatten(one) == chunks[0];
    assert Flatten(two) == Flatten(one) + chunks[1];
  }

  // ----- a reader of the wire form ------------------------------------------------------

  datatype Parsed = Parsed(value: Bytes, rest: Bytes)

  function ReadUint32(b: Bytes): nat
    requires |b| >= 4
  {
    b[0] as int * 0x1000000 + b[1] as int * 0x10000 + b[2] as int * 0x100 + b[3] as int
  }

  /** Read one `string`. */
  function ReadString(b: Bytes): Option<Parsed> {
    if |b| < 4 then None
    else
      var length := ReadUint32(b);
      if |b| - 4 < length then None else Some(Parsed(b[4..4 + length], b[4 + length..]))
  }

  datatype RsaKey = RsaKey(name: Bytes, e: int, n: int)

  /** Read a whole `ssh-rsa` blob: nothing may be left over. */
  function ReadRsaKey(b: Bytes): Option<RsaKey> {
    var name := ReadString(b);
    if name.None? then None
    else
      var e := ReadString(name.value.rest);
      if e.None? then None
      else
        var n := ReadString(e.value.rest);
        if n.None? || n.value.rest != [] then None
        else Some(RsaKey(name.value.value, Signed(e.value.value), Signed(n.value.value)))
  }

  /** Fields come back as they were sent exactly while their length fits 32 bits. */
  lemma FieldRoundTripIff(value: Bytes, rest: Bytes)
    ensures ReadString(SshField(value) + rest) == Some(Parsed(value, rest)) <==> |value| < 0x1_0000_0000
  {
    var b := SshField(value) + rest;
    var length := ReadUint32(b);
    LengthBytes(|value|);
    assert length == |value| % 0x1_0000_0000;
    if |value| < 0x1_0000_0000 {
      assert b[4..4 + length] == value;
      assert b[4 + length..] == rest;
    }
  }

  lemma LengthBytes(v: nat)
    ensures var u := Uint32(v);
      ReadUint32(u) == v % 0x1_0000_0000
  {
    var a, b, c := v / 0x100, v / 0x10000, v / 0x1000000;
    assert v == a * 0x100 + v % 0x100;
    assert a == b * 0x100 + a % 0x100;
    assert b == c * 0x100 + b % 0x100;
    assert v == c * 0x1000000 + (b % 0x100) * 0x10000 + (a % 0x100) * 0x100 + v % 0x100;
    assert c == (c / 0x100) * 0x100 + c % 0x100;
  }

  /** The zero byte makes every mpint read back as the non-negative number it stands for. */
  lemma MpintIsItsValue(value: Bytes)
    ensures Signed(MpintBytes(value)) == Value(value) >= 0
  {
    if |value| > 0 && value[0] >= 128 {
      LeadingZeroKeepsValue(value);
    }
  }

  /** The key that is read from a built blob is the key that was put in, and nothing else. */
  lemma BlobRoundTrip(e: Bytes, n: Bytes)
    requires |e| < 0xFFFF_FFFF && |n| < 0xFFFF_FFFF
    ensures ReadRsaKey(Blob(e, n)) == Some(RsaKey(KEY_TYPE, Value(e), Value(n)))
  {
    hide Uint32, ReadUint32, Signed, Value, SshField, ReadString;
    var be, bn := SshMpint(e), SshMpint(n);
    assert Blob(e, n) == SshField(KEY_TYPE) + (be + bn);
    FieldRoundTripIff(KEY_TYPE, be + bn);
    FieldRoundTripIff(MpintBytes(e), bn);
    assert bn == SshField(MpintBytes(n)) + [];
    FieldRoundTripIff(MpintBytes(n), []);
    MpintIsItsValue(e);
    MpintIsItsValue(n);
  }

  /** No leading byte that only repeats the sign; zero is the empty string. */
  predicate Minimal(b: Bytes) {
    || b == []
    || (b[0] == 0 && |b| > 1 && b[1] >= 128)
    || (b[0] == 255 && (|b| == 1 || b[1] < 128))
    || (b[0] != 0 && b[0] != 255)
  }

  /** The mpint is minimal exactly when the number was given without a leading zero byte
      that it could do without. */
  lemma MpintIsMinimalIff(value: Bytes)
    ensures Minimal(MpintBytes(value)) <==> value == [] || value[0] != 0 || (|value| > 1 && value[1] >= 128)
  {
  }
}

/** The blocks a CCM request is authenticated under: what the client writes, and what the driver fills in around it. */
module Ccm {
  import opened Types
  import opened NumberTheory
  import opened LargeNumber

  const MIN_NONCE := 7
  const MAX_NONCE := 13
  const MAX_AAD := 222

  // Formatting per NIST SP 800-38C Appendix A.2, and reading it back

  datatype Fields = Fields(t: nat, nonce: seq<byte>, messageLen: nat, aad: seq<byte>)

  ghost predicate Permitted(f: Fields) {
    && 4 <= f.t <= 16 && f.t % 2 == 0
    && MIN_NONCE <= |f.nonce| <= MAX_NONCE
    && f.messageLen < Pow(256, 15 - |f.nonce|)
    && |f.aad| <= MAX_AAD
  }

  function Zeros(n: nat): (z: seq<byte>)
    ensures |z| == n && forall i :: 0 <= i < n ==> z[i] == 0
  {
    seq(n, _ => 0)
  }

  function Padding(aadLen: nat): (n: nat)
    ensures n < 16 && (aadLen + 2 + n) % 16 == 0
  {
    if (aadLen + 2) % 16 == 0 then 0 else 16 - (aadLen + 2) % 16
  }

  function Flags(aadLen: nat, t: nat, q: nat): (b: byte)
    requires 4 <= t <= 16 && 2 <= q <= 8
  {
    (if aadLen > 0 then 64 else 0) + 8 * ((t - 2) / 2) + (q - 1)
  }

  /** The first block, then the associated data behind its two-octet length, padded to whole blocks. */
  ghost function Format(f: Fields): seq<byte>
    requires Permitted(f)
  {
    [Flags(|f.aad|, f.t, 15 - |f.nonce|)] + f.nonce + Encode(f.messageLen, 15 - |f.nonce|).value +
    if f.aad == [] then [] else Length2(|f.aad|) + f.aad + Zeros(Padding(|f.aad|))
  }

  function Length2(n: nat): (s: seq<byte>)
    requires n < 65536
    ensures |s| == 2 && Value(s) == n
  {
    var s: seq<byte> := [n / 256, n % 256];
    assert Value(s) == n by {
      assert s[..1] == [n / 256] && [n / 256][..0] == [];
      assert Value(s[..1]) == Value([n / 256][..0]) * 256 + n / 256;
    }
    s
  }

  /**
   * A reader that knows nothing of the nonce length, the tag length or the data but what the octets say. The top bit of
   * the first octet is reserved and clear, and the data, if there is any, is padded with zeros to whole blocks.
   */
  function Decode(s: seq<byte>): Option<Fields> {
    if |s| < 16 || s[0] >= 128 then None else
      var q := s[0] % 8 + 1;
      var t := 2 * (s[0] / 8 % 8) + 2;
      var nonce, messageLen := s[1..16 - q], Value(s[16 - q..16]);
      if s[0] / 64 == 0 then Some(Fields(t, nonce, messageLen, []))
      else if |s| < 18 then None
      else
        var n := Value(s[16..18]);
        var end := 18 + n + Padding(n);
        if n == 0 || |s| < end || s[18 + n..end] != Zeros(Padding(n)) then None
        else Some(Fields(t, nonce, messageLen, s[18..18 + n]))
  }

  /** The flags are the only octet below 128 with these three parts. */
  lemma FlagsDecode(aadLen: nat, t: nat, q: nat, b: byte)
    requires 4 <= t <= 16 && t % 2 == 0 && 2 <= q <= 8
    ensures b == Flags(aadLen, t, q) <==>
            b < 128 && b % 8 + 1 == q && 2 * (b / 8 % 8) + 2 == t && (b / 64 == 0 <==> aadLen == 0)
  {
  }

  /** What is written is what is read: the format loses nothing. */
  lemma DecodeFormat(f: Fields, rest: seq<byte>)
    requires Permitted(f)
    ensures |Format(f)| % 16 == 0 && Decode(Format(f) + rest) == Some(f)
  {
    hide Pow, Value, Encode;
    var n, q := |f.nonce|, 15 - |f.nonce|;
    var s := Format(f) + rest;
    FlagsDecode(|f.aad|, f.t, q, Flags(|f.aad|, f.t, q));
    assert s[0] == Flags(|f.aad|, f.t, q);
    assert s[1..16 - q] == f.nonce;
    assert s[16 - q..16] == Encode(f.messageLen, q).value;
    if f.aad != [] {
      var end := 18 + |f.aad| + Padding(|f.aad|);
      assert s[16..18] == Length2(|f.aad|);
      assert s[18..18 + |f.aad|] == f.aad;
      assert s[18 + |f.aad|..end] == Zeros(Padding(|f.aad|));
    }
  }

  /** And what is read is what was written: the octets of a permitted request are those of its format, one and all. */
  lemma DecodeIff(s: seq<byte>, f: Fields)
    requires Permitted(f)
    ensures Decode(s) == Some(f) <==> Format(f) <= s
  {
    hide Pow, Value, Encode, Decode, Flags;
    if Format(f) <= s {
      DecodeFormat(f, s[|Format(f)|..]);
      assert s == Format(f) + s[|Format(f)|..];
    }
    if Decode(s) == Some(f) {
      FirstBlockRead(s, f);
      if f.aad == [] {
        assert Format(f) == s[..16];
      } else {
        LaterBlocksRead(s, f);
        var end := 18 + |f.aad| + Padding(|f.aad|);
        assert Format(f) == s[..16] + s[16..end] == s[..end];
      }
    }
  }

  lemma FirstBlockRead(s: seq<byte>, f: Fields)
    requires Permitted(f) && Decode(s) == Some(f)
    ensures |s| >= 16
    ensures [Flags(|f.aad|, f.t, 15 - |f.nonce|)] + f.nonce + Encode(f.messageLen, 15 - |f.nonce|).value == s[..16]
  {
    var q := 15 - |f.nonce|;
    FlagsDecode(|f.aad|, f.t, q, s[0]);
    EncodeValue(s[16 - q..16]);
    assert s[..16] == [s[0]] + s[1..16 - q] + s[16 - q..16];
  }

  lemma LaterBlocksRead(s: seq<byte>, f: Fields)
    requires Permitted(f) && Decode(s) == Some(f) && f.aad != []
    ensures var end := 18 + |f.aad| + Padding(|f.aad|);
            end <= |s| && Length2(|f.aad|) + f.aad + Zeros(Padding(|f.aad|)) == s[16..end]
  {
    var n := |f.aad|;
    var end := 18 + n + Padding(n);
    ValueInjective(s[16..18], Length2(n));
    assert s[16..end] == s[16..18] + s[18..18 + n] + s[18 + n..end];
  }

  /** No two requests are authenticated under the same blocks, nor one under a beginning of another's. */
  lemma FormatInjective(f: Fields, g: Fields)
    requires Permitted(f) && Permitted(g) && Format(f) <= Format(g)
    ensures f == g
  {
    DecodeFormat(f, Format(g)[|Format(f)|..]);
    DecodeFormat(g, []);
    assert Format(f) + Format(g)[|Format(f)|..] == Format(g) == Format(g) + [];
  }

  // The driver's code

  function Splice(s: seq<byte>, at: nat, data: seq<byte>): (r: seq<byte>)
    requires at + |data| <= |s|
    ensures |r| == |s|
  {
    s[..at] + data + s[at + |data|..]
  }

  method Copy(a: array<byte>, at: nat, data: seq<byte>)
    requires at + |data| <= a.Length
    modifies a
    ensures a[..] == Splice(old(a[..]), at, data)
  {
    for i := 0 to |data|
      invariant forall k :: 0 <= k < a.Length ==>
                  a[k] == if at <= k < at + i then data[k - at] else old(a[k])
    {
      a[at + i] := data[i];
    }
  }

  /** CPA_CY_SYM_CCM_SET_NONCE */
  method SetNonce(iv: array<byte>, aad: array<byte>, nonce: seq<byte>)
    requires iv != aad && 1 + |nonce| <= iv.Length && 1 + |nonce| <= aad.Length
    modifies iv, aad
    ensures iv[..] == Splice(old(iv[..]), 1, nonce)
    ensures aad[..] == Splice(old(aad[..]), 1, nonce)
  {
    Copy(iv, 1, nonce);
    Copy(aad, 1, nonce);
  }

  /** CPA_CY_SYM_CCM_SET_AAD */
  method SetAad(aad: array<byte>, data: seq<byte>)
    requires 18 + |data| <= aad.Length
    modifies aad
    ensures aad[..] == Splice(old(aad[..]), 18, data)
  {
    Copy(aad, 18, data);
  }

  /** The client may set the nonce and the associated data in either order; neither touches the slots left free. */
  lemma SetsCommute(s: seq<byte>, nonce: seq<byte>, data: seq<byte>)
    requires |nonce| <= MAX_NONCE && 18 + |data| <= |s|
    ensures Splice(Splice(s, 1, nonce), 18, data) == Splice(Splice(s, 18, data), 1, nonce)
    ensures var r := Splice(Splice(s, 1, nonce), 18, data);
            && r[0] == s[0] && r[1 + |nonce|..18] == s[1 + |nonce|..18]
            && r[1..1 + |nonce|] == nonce && r[18..18 + |data|] == data
  {
  }

  /** LacSymAlgChain_CheckCCMData: the length of the message must fit the octets the nonce leaves for it. */
  method CheckCcmData(messageLen: nat, nonceLen: nat) returns (ok: bool)
    requires messageLen < Pow(256, 4)
    ensures ok <==> 7 <= nonceLen <= 13 && messageLen < Pow(256, 15 - nonceLen)
  {
    if nonceLen < MIN_NONCE || nonceLen > MAX_NONCE {
      return false;
    }
    var q := 15 - nonceLen;
    SmallSizes();
    if q >= 4 {
      PowMonotone(256, 4, q);
      return true;
    }
    ok := messageLen < if q == 2 then 65536 else 16777216;
  }

  lemma SmallSizes()
    ensures Pow(256, 2) == 65536 && Pow(256, 3) == 16777216
  {
    assert Pow(256, 1) == 256;
  }

  /** The octets copied from the 32-bit message length in network order. */
  ghost function LengthField(messageLen: nat, q: nat): (s: seq<byte>)
    requires messageLen < Pow(256, 4)
    ensures |s| == q
  {
    var be := Encode(messageLen, 4).value;
    if q > 4 then Zeros(q - 4) + be else be[4 - q..]
  }

  /** Those octets are the length itself, cut to the octets there are. */
  lemma LengthFieldValue(messageLen: nat, q: nat)
    requires messageLen < Pow(256, 4)
    ensures messageLen % Pow(256, q) < Pow(256, q)
    ensures LengthField(messageLen, q) == Encode(messageLen % Pow(256, q), q).value
  {
    var be, field, P := Encode(messageLen, 4).value, LengthField(messageLen, q), Pow(256, q);
    ValueBound(field);
    if q > 4 {
      LeadingZeros(Zeros(q - 4), be);
      ModUnique(0, messageLen, P);
    } else {
      assert be == be[..4 - q] + field;
      ValueConcat(be[..4 - q], field);
      ModUnique(Value(be[..4 - q]), Value(field), P);
    }
    ValueInjective(field, Encode(messageLen % P, q).value);
  }

  /** How much of the array the blocks take. */
  function BlocksLength(aadLen: nat): nat {
    if aadLen == 0 then 16 else 18 + aadLen + Padding(aadLen)
  }

  /** The array once the flags, the message length, the data length and the padding have been filled in. */
  function Filled(s: seq<byte>, flags: byte, n: nat, field: seq<byte>, aadLen: nat): seq<byte>
    requires MIN_NONCE <= n <= MAX_NONCE && |field| == 15 - n && aadLen <= MAX_AAD && BlocksLength(aadLen) <= |s|
  {
    var r := Splice(Splice(s, 0, [flags]), n + 1, field);
    if aadLen == 0 then r else Splice(Splice(r, 16, Length2(aadLen)), 18 + aadLen, Zeros(Padding(aadLen)))
  }

  lemma SpliceAt(a: seq<byte>, b: seq<byte>, c: seq<byte>, d: seq<byte>)
    requires |b| == |d|
    ensures Splice(a + b + c, |a|, d) == a + d + c
  {
    assert (a + b + c)[..|a|] == a && (a + b + c)[|a| + |d|..] == c;
  }

  /** The associated data as the client left it in the array. */
  function Data(s: seq<byte>, aadLen: nat): seq<byte>
    requires BlocksLength(aadLen) <= |s|
  {
    if aadLen == 0 then [] else s[18..18 + aadLen]
  }

  lemma FirstBlock(s: seq<byte>, flags: byte, n: nat, field: seq<byte>)
    requires MIN_NONCE <= n <= MAX_NONCE && |field| == 15 - n && 16 <= |s|
    ensures Splice(Splice(s, 0, [flags]), n + 1, field) == [flags] + s[1..1 + n] + field + s[16..]
  {
    assert s == [] + [s[0]] + s[1..];
    SpliceAt([], [s[0]], s[1..], [flags]);
    var a := [flags] + s[1..1 + n];
    assert [] + [flags] + s[1..] == a + s[1 + n..16] + s[16..];
    SpliceAt(a, s[1 + n..16], s[16..], field);
  }

  lemma LaterBlocks(first: seq<byte>, s: seq<byte>, aadLen: nat)
    requires |first| == 16 && 0 < aadLen <= MAX_AAD && BlocksLength(aadLen) <= |s|
    ensures Splice(Splice(first + s[16..], 16, Length2(aadLen)), 18 + aadLen, Zeros(Padding(aadLen))) ==
            first + (Length2(aadLen) + s[18..18 + aadLen] + Zeros(Padding(aadLen))) + s[BlocksLength(aadLen)..]
  {
    var end := BlocksLength(aadLen);
    assert first + s[16..] == first + s[16..18] + s[18..];
    SpliceAt(first, s[16..18], s[18..], Length2(aadLen));
    var a := first + Length2(aadLen) + s[18..18 + aadLen];
    assert first + Length2(aadLen) + s[18..] == a + s[18 + aadLen..end] + s[end..];
    SpliceAt(a, s[18 + aadLen..end], s[end..], Zeros(Padding(aadLen)));
    assert a + Zeros(Padding(aadLen)) == first + (Length2(aadLen) + s[18..18 + aadLen] + Zeros(Padding(aadLen)));
  }

  lemma FilledIsFormat(s: seq<byte>, n: nat, aadLen: nat, t: nat, messageLen: nat)
    requires MIN_NONCE <= n <= MAX_NONCE && aadLen <= MAX_AAD && BlocksLength(aadLen) <= |s|
    requires 4 <= t <= 16 && t % 2 == 0 && messageLen < Pow(256, 4)
    ensures messageLen % Pow(256, 15 - n) < Pow(256, 15 - n)
    ensures Filled(s, Flags(aadLen, t, 15 - n), n, LengthField(messageLen, 15 - n), aadLen) ==
            Format(Fields(t, s[1..1 + n], messageLen % Pow(256, 15 - n), Data(s, aadLen))) + s[BlocksLength(aadLen)..]
  {
    hide Pow, Value, Encode, Splice;
    var q := 15 - n;
    var flags, field := Flags(aadLen, t, q), LengthField(messageLen, q);
    LengthFieldValue(messageLen, q);
    FirstBlock(s, flags, n, field);
    var first := [flags] + s[1..1 + n] + field;
    if aadLen > 0 {
      LaterBlocks(first, s, aadLen);
    } else {
      assert first + [] == first;
    }
  }

  /** The message length goes in as four octets, behind zeros or cut to fit. */
  method WriteLength(aad: array<byte>, n: nat, messageLen: nat)
    requires MIN_NONCE <= n <= MAX_NONCE && 16 <= aad.Length && messageLen < Pow(256, 4)
    modifies aad
    ensures aad[..] == Splice(old(aad[..]), n + 1, LengthField(messageLen, 15 - n))
  {
    hide Pow, Value, Encode;
    var q := 15 - n;
    var be := Encode(messageLen, 4).value;
    if q > 4 {
      Copy(aad, n + 1, Zeros(q));
      Copy(aad, n + 1 + (q - 4), be);
    } else {
      Copy(aad, n + 1, be[4 - q..]);
    }
  }

  /**
   * LacSymAlgChain_PrepareCCMData. The array then starts with the format of the client's nonce and data, the tag length
   * and the message length cut to the octets left for it; the rest of the array is as it was. The other array holds
   * the first counter block.
   */
  method PrepareCcmData(iv: array<byte>, aad: array<byte>, aadLen: nat, t: nat, messageLen: nat, n: nat)
    requires iv != aad && iv.Length >= 16 && BlocksLength(aadLen) <= aad.Length
    requires MIN_NONCE <= n <= MAX_NONCE && aadLen <= MAX_AAD && messageLen < Pow(256, 4)
    requires 4 <= t <= 16 && t % 2 == 0
    modifies iv, aad
    ensures messageLen % Pow(256, 15 - n) < Pow(256, 15 - n)
    ensures aad[..] == Format(Fields(t, old(aad[1..1 + n]), messageLen % Pow(256, 15 - n), Data(old(aad[..]), aadLen))) +
                       old(aad[BlocksLength(aadLen)..])
    ensures iv[..] == [14 - n] + old(iv[1..1 + n]) + Zeros(15 - n) + old(iv[16..])
  {
    hide Pow, Value, Encode, Splice, Format, LengthField;
    FilledIsFormat(aad[..], n, aadLen, t, messageLen);
    FirstBlock(iv[..], 14 - n, n, Zeros(15 - n));
    assert aad[..][1..1 + n] == aad[1..1 + n] && aad[..][BlocksLength(aadLen)..] == aad[BlocksLength(aadLen)..];
    assert iv[..][1..1 + n] == iv[1..1 + n] && iv[..][16..] == iv[16..];
    var q := 15 - n;
    Copy(iv, 0, [q - 1]);
    Copy(iv, n + 1, Zeros(q));
    Copy(aad, 0, [Flags(aadLen, t, q)]);
    WriteLength(aad, n, messageLen);
    if aadLen > 0 {
      Copy(aad, 16, Length2(aadLen));
      Copy(aad, 18 + aadLen, Zeros(Padding(aadLen)));
    }
  }

  /** What was prepared reads back as what was asked for exactly when the check would have let the request through. */
  lemma PreparedReadsBackIff(t: nat, nonce: seq<byte>, messageLen: nat, data: seq<byte>, rest: seq<byte>)
    requires 4 <= t <= 16 && t % 2 == 0 && MIN_NONCE <= |nonce| <= MAX_NONCE && |data| <= MAX_AAD
    ensures var f := Fields(t, nonce, messageLen % Pow(256, 15 - |nonce|), data);
            Decode(Format(f) + rest) == Some(Fields(t, nonce, messageLen, data)) <==> messageLen < Pow(256, 15 - |nonce|)
  {
    var P := Pow(256, 15 - |nonce|);
    DecodeFormat(Fields(t, nonce, messageLen % P, data), rest);
    if messageLen < P {
      ModUnique(0, messageLen, P);
    }
  }
}

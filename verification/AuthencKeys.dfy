/** Taking the two keys of an authenticated cipher out of the blob they are handed over in. */
module AuthencKeys {
  import opened Types
  import opened NumberTheory
  import opened LargeNumber

  const PARAM_TYPE := 1
  const HEADER := 4
  const PARAM_SIZE := 4

  /** Where the keys are, as offsets into the blob and lengths. */
  datatype Keys = Keys(authKey: nat, authLen: nat, encKey: nat, encLen: nat)

  /** A 16-bit field of the attribute header, in the host's order, least significant octet first. */
  function Field(blob: seq<byte>, at: nat): nat
    requires at + 2 <= |blob|
  {
    blob[at] as int + 256 * (blob[at + 1] as int)
  }

  function Align(n: nat): (r: nat)
    ensures r % 4 == 0 && n <= r < n + 4
  {
    (n + 3) / 4 * 4
  }

  /** The blob starts with a whole attribute of the right type holding a length, all within the blob. */
  ghost predicate WellFormed(blob: seq<byte>) {
    && |blob| >= HEADER
    && HEADER + PARAM_SIZE <= Field(blob, 0) <= |blob|
    && Field(blob, 2) == PARAM_TYPE
  }

  /** The length of the encryption key, as the blob gives it. */
  ghost function EncLen(blob: seq<byte>): nat
    requires WellFormed(blob)
  {
    Value(blob[4..8])
  }

  ghost predicate InBounds(k: Keys, blob: seq<byte>) {
    && k.authKey + k.authLen == k.encKey
    && k.encKey + k.encLen == |blob|
  }

  /** What is left of the blob after the aligned attribute; where that runs over the end, the 32-bit length wraps. */
  ghost function Remaining(blob: seq<byte>): nat
    requires WellFormed(blob) && |blob| < 0x1_0000_0000
  {
    if Align(Field(blob, 0)) <= |blob| then |blob| - Align(Field(blob, 0))
    else 0x1_0000_0000 - (Align(Field(blob, 0)) - |blob|)
  }

  /**
   * crypto_authenc_extractkeys. It succeeds exactly if the encryption key's length fits what remains; the keys are then
   * adjacent and end with the blob exactly if the aligned attribute did not run over the end.
   */
  method ExtractKeys(blob: seq<byte>) returns (r: Option<Keys>)
    requires |blob| < 0x1_0000_0000
    ensures r.Some? <==> WellFormed(blob) && EncLen(blob) <= Remaining(blob)
    ensures r.Some? ==> r.value.authKey == Align(Field(blob, 0)) && r.value.encLen == EncLen(blob)
    ensures r.Some? ==> && r.value.authLen + r.value.encLen == (|blob| - r.value.authKey) % 0x1_0000_0000
                        && r.value.encKey == r.value.authKey + r.value.authLen
    ensures r.Some? ==> (InBounds(r.value, blob) <==> Align(Field(blob, 0)) <= |blob|)
  {
    if |blob| < HEADER {
      return None;
    }
    var len := Field(blob, 0);
    if len < HEADER || len > |blob| || Field(blob, 2) != PARAM_TYPE || len - HEADER < PARAM_SIZE {
      return None;
    }
    var encLen := Value(blob[4..8]);
    var rest := (|blob| - Align(len)) % 0x1_0000_0000;
    if rest < encLen {
      return None;
    }
    r := Some(Keys(Align(len), rest - encLen, Align(len) + (rest - encLen), encLen));
  }

  /** A blob of nine octets, all of them attribute, is taken, and the keys it yields are not in it. */
  method OverrunExample() returns (k: Keys)
    ensures WellFormed([9, 0, 1, 0, 0, 0, 0, 0, 0]) && !InBounds(k, [9, 0, 1, 0, 0, 0, 0, 0, 0]) && k.authKey == 12
  {
    var blob: seq<byte> := [9, 0, 1, 0, 0, 0, 0, 0, 0];
    LeadingZeros(blob[4..8], []);
    assert blob[4..8] + [] == blob[4..8];
    var r := ExtractKeys(blob);
    k := r.value;
  }

  /** A blob carrying two keys, its attribute possibly longer than needed and followed by padding. */
  ghost function Build(auth: seq<byte>, enc: seq<byte>, extra: seq<byte>, padding: seq<byte>): seq<byte>
    requires 8 + |extra| < 65536 && |enc| < Pow(256, 4)
  {
    var len := 8 + |extra|;
    [len % 256, len / 256, 1, 0] + Encode(|enc|, 4).value + extra + padding + auth + enc
  }

  /** Any two keys put in a blob are the keys taken out of it. */
  method ExtractBuilt(blob: seq<byte>, auth: seq<byte>, enc: seq<byte>, extra: seq<byte>, padding: seq<byte>)
      returns (k: Keys)
    requires 8 + |extra| < 65536 && |enc| < Pow(256, 4) && |padding| == Align(8 + |extra|) - (8 + |extra|)
    requires blob == Build(auth, enc, extra, padding) && |blob| < 0x1_0000_0000
    ensures InBounds(k, blob) && k.authKey <= k.encKey <= |blob|
    ensures blob[k.authKey..k.encKey] == auth && blob[k.encKey..] == enc
  {
    var len := 8 + |extra|;
    assert Field(blob, 0) == len && Field(blob, 2) == 1;
    assert blob[4..8] == Encode(|enc|, 4).value;
    var r := ExtractKeys(blob);
    k := r.value;
    assert blob[Align(len)..] == auth + enc;
    assert blob[k.authKey..k.encKey] == (auth + enc)[..|auth|];
    assert blob[k.encKey..] == (auth + enc)[|auth|..];
  }
}

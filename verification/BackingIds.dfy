/** The hexadecimal text of `ConcurrentBackingId`: src/storage.rs. Text is its UTF-8 bytes. */
module BackingIds {
  import opened Base
  import opened Authority

  const ZERO: bv8 := 0x30
  const NINE: bv8 := 0x39
  const LOWER_A: bv8 := 0x61
  const LOWER_F: bv8 := 0x66

  /** One lower-case hexadecimal digit of a half byte. */
  function HexDigit(half: bv8): bv8 {
    if half < 10 then ZERO + half else LOWER_A + (half - 10)
  }

  /** The digits 0 to 9 and a to f, in order. */
  const LOWER_DIGITS: seq<bv8> := [
    0x30, 0x31, 0x32, 0x33, 0x34, 0x35, 0x36, 0x37, 0x38, 0x39, 0x61, 0x62, 0x63, 0x64, 0x65, 0x66]

  lemma HexDigitTable(half: bv8)
    requires half < 16
    ensures HexDigit(half) == LOWER_DIGITS[half as int]
  {
  }

  /** `{:02x}` of every byte in turn. */
  function HexOf(bytes: seq<bv8>): (text: seq<bv8>)
    ensures |text| == 2 * |bytes|
  {
    if bytes == [] then [] else
      var last := bytes[|bytes| - 1];
      HexOf(bytes[..|bytes| - 1]) + [HexDigit(last >> 4), HexDigit(last & 0xF)]
  }

  /** Two digits per byte, the high half first. */
  method ToHex(id: BackingId) returns (text: seq<bv8>)
    ensures text == HexOf(id)
    ensures forall k | 0 <= k < 16 ::
      && text[2 * k] == LOWER_DIGITS[(id[k] >> 4) as int]
      && text[2 * k + 1] == LOWER_DIGITS[(id[k] & 0xF) as int]
  {
    text := [];
    for k := 0 to 16
      invariant text == HexOf(id[..k])
    {
      assert id[..k + 1][..k] == id[..k];
      text := text + [HexDigit(id[k] >> 4), HexDigit(id[k] & 0xF)];
    }
    assert id[..16] == id;
    forall k | 0 <= k < 16
      ensures text[2 * k] == LOWER_DIGITS[(id[k] >> 4) as int]
      ensures text[2 * k + 1] == LOWER_DIGITS[(id[k] & 0xF) as int]
    {
      HexAt(id, k);
      HexDigitTable(id[k] >> 4);
      HexDigitTable(id[k] & 0xF);
    }
  }

  function Nibble(c: bv8): Result<bv8> {
    if ZERO <= c <= NINE then Ok(c - ZERO)
    else if LOWER_A <= c <= LOWER_F then Ok(c - LOWER_A + 10)
    else Err
  }

  /** Two characters are the digits of a byte exactly when both parse and the byte joins them. */
  lemma NibblesAreDigits(hi: bv8, lo: bv8, byte: bv8)
    ensures hi == HexDigit(byte >> 4) && lo == HexDigit(byte & 0xF) <==>
      Nibble(hi).Ok? && Nibble(lo).Ok? && byte == (Nibble(hi).value << 4) | Nibble(lo).value
  {
  }

  lemma {:induction false} HexAt(bytes: seq<bv8>, k: nat)
    requires k < |bytes|
    ensures HexOf(bytes)[2 * k] == HexDigit(bytes[k] >> 4) && HexOf(bytes)[2 * k + 1] == HexDigit(bytes[k] & 0xF)
    decreases |bytes|
  {
    if k < |bytes| - 1 {
      HexAt(bytes[..|bytes| - 1], k);
    }
  }

  /** Distinct identities have distinct texts. */
  lemma HexInjective(a: seq<bv8>, b: seq<bv8>)
    requires HexOf(a) == HexOf(b)
    ensures a == b
  {
    forall k | 0 <= k < |a| ensures a[k] == b[k] {
      HexAt(a, k);
      HexAt(b, k);
      NibblesAreDigits(HexOf(a)[2 * k], HexOf(a)[2 * k + 1], a[k]);
      NibblesAreDigits(HexOf(b)[2 * k], HexOf(b)[2 * k + 1], b[k]);
    }
  }

  /** A text with a bad pair of characters is nobody's text. */
  lemma BadPair(raw: seq<bv8>, k: nat, id: BackingId)
    requires |raw| == 32 && k < 16 && (Nibble(raw[2 * k]).Err? || Nibble(raw[2 * k + 1]).Err?)
    ensures HexOf(id) != raw
  {
    HexAt(id, k);
    NibblesAreDigits(HexDigit(id[k] >> 4), HexDigit(id[k] & 0xF), id[k]);
  }

  /** The text belongs to this identity, and the identity is not all zeros. */
  ghost predicate Denotes(raw: seq<bv8>, id: BackingId) {
    HexOf(id) == raw && BackingValid(id)
  }

  lemma {:induction false} HexExtends(bytes: seq<bv8>, k: nat, raw: seq<bv8>)
    requires k < |bytes| && |raw| == 2 * |bytes| && HexOf(bytes[..k]) == raw[..2 * k]
    requires raw[2 * k] == HexDigit(bytes[k] >> 4) && raw[2 * k + 1] == HexDigit(bytes[k] & 0xF)
    ensures HexOf(bytes[..k + 1]) == raw[..2 * (k + 1)]
  {
    assert bytes[..k + 1][..k] == bytes[..k];
    assert raw[..2 * (k + 1)] == raw[..2 * k] + [raw[2 * k], raw[2 * k + 1]];
  }

  /** `from_hex` accepts exactly the texts of nonzero identities and returns the one denoted. */
  method FromHex(raw: seq<bv8>) returns (r: Result<BackingId>)
    ensures r.Ok? ==> Denotes(raw, r.value)
    ensures forall id: BackingId | Denotes(raw, id) :: r == Ok(id)
  {
    if |raw| != 32 { return Err; }
    var bytes := new bv8[16](_ => 0);
    for index := 0 to 16
      invariant HexOf(bytes[..index]) == raw[..2 * index]
    {
      var hi, lo := Nibble(raw[2 * index]), Nibble(raw[2 * index + 1]);
      if hi.Err? || lo.Err? {
        forall id: BackingId ensures HexOf(id) != raw { BadPair(raw, index, id); }
        return Err;
      }
      var byte := (hi.value << 4) | lo.value;
      NibblesAreDigits(raw[2 * index], raw[2 * index + 1], byte);
      ghost var done := bytes[..index];
      bytes[index] := byte;
      assert bytes[..index] == done;
      assert bytes[..][..index] == bytes[..index] && bytes[..][..index + 1] == bytes[..index + 1];
      HexExtends(bytes[..], index, raw);
    }
    assert bytes[..16] == bytes[..] && raw[..32] == raw;
    forall id: BackingId | HexOf(id) == raw ensures id == bytes[..] { HexInjective(id, bytes[..]); }
    if forall k | 0 <= k < 16 :: bytes[k] == 0 {
      ZeroRefused(bytes[..]);
      return Err;
    }
    NonzeroAccepted(bytes[..]);
    return Ok(bytes[..]);
  }

  lemma ZeroRefused(bytes: BackingId)
    requires forall k | 0 <= k < 16 :: bytes[k] == 0
    ensures !BackingValid(bytes)
  {
  }

  lemma NonzeroAccepted(bytes: BackingId)
    requires exists k | 0 <= k < 16 :: bytes[k] != 0
    ensures BackingValid(bytes)
  {
  }
}

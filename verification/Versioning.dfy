/** Version identities and records: src/versioning.rs. */
module Versioning {
  import opened Base
  import opened Storage
  import Validator

  datatype Option<+T> = None | Some(value: T)

  datatype VolumeId = VolumeId(text: string)
  datatype VersionId = VersionId(volume: VolumeId, sequence: u64)

  // ---- Decimal text ---------------------------------------------------------

  function Digit(d: nat): char
    requires d < 10
  {
    ('0' as int + d) as char
  }

  predicate IsDigit(c: char) {
    '0' <= c <= '9'
  }

  predicate AllDigits(text: string) {
    forall k | 0 <= k < |text| :: IsDigit(text[k])
  }

  /** `u64::to_string`. */
  function ToDecimal(n: nat): string {
    if n < 10 then [Digit(n)] else ToDecimal(n / 10) + [Digit(n % 10)]
  }

  /** The number a string of digits denotes, leading zeros allowed. */
  function DigitsValue(text: string): nat
    requires AllDigits(text)
  {
    if text == "" then 0 else
      10 * DigitsValue(text[..|text| - 1]) + (text[|text| - 1] as int - '0' as int)
  }

  /** `str::parse::<u64>`: an optional plus sign, at least one digit, no overflow. */
  function ParseU64(text: string): Result<u64> {
    var digits := if text != "" && text[0] == '+' then text[1..] else text;
    if digits == "" || !AllDigits(digits) then Err
    else if DigitsValue(digits) > U64_MAX then Err
    else Ok(DigitsValue(digits))
  }

  /** Decimal text is digits that denote the number, without a leading zero. */
  lemma {:induction false} DecimalRoundTrip(n: nat)
    ensures ToDecimal(n) != "" && AllDigits(ToDecimal(n)) && DigitsValue(ToDecimal(n)) == n
    ensures n > 0 ==> ToDecimal(n)[0] != '0'
    decreases n
  {
    if n >= 10 {
      DecimalRoundTrip(n / 10);
      var init := ToDecimal(n / 10);
      assert ToDecimal(n)[..|init|] == init;
    } else {
      assert ToDecimal(n)[..0] == "";
    }
  }

  // ---- Identities -----------------------------------------------------------

  /** `VolumeId::new`. */
  function NewVolume(text: string): Result<VolumeId> {
    if text == "" || ':' in text || '\0' in text then Err else Ok(VolumeId(text))
  }

  /** `VersionId::new`. */
  function NewVersion(volume: VolumeId, sequence: u64): Result<VersionId> {
    if sequence == 0 then Err else Ok(VersionId(volume, sequence))
  }

  function Encode(v: VersionId): string {
    v.volume.text + ":" + ToDecimal(v.sequence)
  }

  /** `rsplit_once(':')`: the text before and after the last colon. */
  function SplitAtLastColon(text: string): Option<(string, string)> {
    if text == "" then None
    else if text[|text| - 1] == ':' then Some((text[..|text| - 1], ""))
    else match SplitAtLastColon(text[..|text| - 1])
      case None => None
      case Some((left, right)) => Some((left, right + [text[|text| - 1]]))
  }

  function Decode(text: string): Result<VersionId> {
    match SplitAtLastColon(text)
    case None => Err
    case Some((volumeText, sequenceText)) =>
      var volume := NewVolume(volumeText);
      if volume.Err? then Err else
      var sequence := ParseU64(sequenceText);
      if sequence.Err? then Err else
      if ToDecimal(sequence.value) != sequenceText then Err else
      NewVersion(volume.value, sequence.value)
  }

  lemma {:induction false} SplitFindsLastColon(left: string, right: string)
    requires ':' !in right
    ensures SplitAtLastColon(left + ":" + right) == Some((left, right))
    decreases |right|
  {
    var text := left + ":" + right;
    if right == "" {
      assert text[..|text| - 1] == left;
    } else {
      assert text[..|text| - 1] == left + ":" + right[..|right| - 1];
      SplitFindsLastColon(left, right[..|right| - 1]);
      assert right == right[..|right| - 1] + [right[|right| - 1]];
    }
  }

  lemma {:induction false} SplitRejoins(text: string)
    ensures SplitAtLastColon(text).Some? ==>
      var (left, right) := SplitAtLastColon(text).value; text == left + ":" + right && ':' !in right
    decreases |text|
  {
    if text != "" {
      var init, last := text[..|text| - 1], text[|text| - 1];
      assert text == init + [last];
      SplitRejoins(init);
    }
  }

  lemma ParseDecimal(n: u64)
    ensures ParseU64(ToDecimal(n)) == Ok(n) && ':' !in ToDecimal(n)
  {
    DecimalRoundTrip(n);
    var digits := ToDecimal(n);
    assert IsDigit(digits[0]);
    forall k | 0 <= k < |digits| ensures digits[k] != ':' {
      assert IsDigit(digits[k]);
    }
  }

  /** Decoding undoes encoding on every well-formed identity and refuses the text of any other. */
  lemma DecodeEncode(v: VersionId)
    ensures Decode(Encode(v)) ==
      if v.volume.text != "" && ':' !in v.volume.text && '\0' !in v.volume.text && v.sequence != 0
      then Ok(v) else Err
  {
    ParseDecimal(v.sequence);
    SplitFindsLastColon(v.volume.text, ToDecimal(v.sequence));
  }

  /** Only canonical text decodes: what decodes is well formed and re-encodes to the same text. */
  lemma EncodeDecode(text: string)
    requires Decode(text).Ok?
    ensures
      var v := Decode(text).value;
      && v.volume.text != "" && ':' !in v.volume.text && '\0' !in v.volume.text && v.sequence != 0
      && text == v.volume.text + ":" + ToDecimal(v.sequence) && Encode(v) == text
  {
    SplitRejoins(text);
  }

  // ---- Records --------------------------------------------------------------

  datatype VersionKind = InitialVersion | SnapshotVersion | NamespacePublication | Restore | Fork

  datatype VersionInfo = VersionInfo(
    id: VersionId, parent: Option<VersionId>, restoredFrom: Option<VersionId>, forkedFrom: Option<VersionId>,
    kind: VersionKind, namespace: Namespace, blockStoreId: string, createdAtMs: i64, durable: bool)

  predicate ParentAllowed(info: VersionInfo) {
    info.parent.Some? ==>
      info.parent.value.volume == info.id.volume && info.parent.value.sequence < info.id.sequence
  }

  predicate RestoreAllowed(info: VersionInfo) {
    info.restoredFrom.Some? && info.restoredFrom.value.volume == info.id.volume ==>
      info.restoredFrom.value.sequence < info.id.sequence
  }

  /** What `VersionInfo::validate` accepts. */
  ghost predicate InfoValid(info: VersionInfo) {
    info.id.sequence != 0 && ParentAllowed(info) && RestoreAllowed(info) && Valid(info.namespace)
  }

  method ValidateInfo(info: VersionInfo) returns (r: Outcome)
    ensures r.Pass? <==> InfoValid(info)
  {
    if info.id.sequence == 0 { return Fail; }
    if info.parent.Some? && info.parent.value.volume != info.id.volume { return Fail; }
    if info.parent.Some? && info.parent.value.sequence >= info.id.sequence { return Fail; }
    if info.restoredFrom.Some? && info.restoredFrom.value.volume == info.id.volume
       && info.restoredFrom.value.sequence >= info.id.sequence
    {
      return Fail;
    }
    r := Validator.Validate(info.namespace);
  }

  /** The records a version builds on: its parent and its restore source, of whatever volume. */
  function References(info: VersionInfo): set<VersionId> {
    (if info.parent.Some? then {info.parent.value} else {})
    + (if info.restoredFrom.Some? then {info.restoredFrom.value} else {})
  }

  /** Strictly earlier on the same timeline. */
  predicate Precedes(a: VersionId, b: VersionId) {
    a.volume == b.volume && a.sequence < b.sequence
  }

  ghost predicate InfoValidForVolume(info: VersionInfo, volume: VolumeId) {
    && info.id.volume == volume
    && InfoValid(info)
    && (forall reference | reference in References(info) :: reference.volume == volume)
  }

  method ValidateForVolume(info: VersionInfo, volume: VolumeId) returns (r: Outcome)
    ensures r.Pass? <==> InfoValidForVolume(info, volume)
  {
    if info.id.volume != volume { return Fail; }
    r := ValidateInfo(info);
    if r.Fail? { return; }
    var references := [info.parent, info.restoredFrom];
    for k := 0 to 2
      invariant forall i | 0 <= i < k && references[i].Some? :: references[i].value.volume == volume
    {
      if references[k].Some? && references[k].value.volume != volume {
        assert references[k].value in References(info);
        return Fail;
      }
    }
    assert references[0] == info.parent && references[1] == info.restoredFrom;
    return Pass;
  }

  /** `validate` alone orders the references of a record exactly when its restore source,
      if any, is in its own volume: the cross-volume case is not compared. */
  lemma ReferencesPrecedeIff(info: VersionInfo)
    requires InfoValid(info)
    ensures (forall reference | reference in References(info) :: Precedes(reference, info.id)) <==>
      (info.restoredFrom.Some? ==> info.restoredFrom.value.volume == info.id.volume)
  {
    if info.restoredFrom.Some? {
      assert info.restoredFrom.value in References(info);
    }
  }

  /** Two records of different volumes that each name the other as restore source both pass
      `validate`, so `validate` alone does not rule out circular ancestry. */
  lemma CrossVolumeCycle(ns: Namespace) returns (a: VersionInfo, b: VersionInfo)
    requires Valid(ns)
    ensures InfoValid(a) && InfoValid(b)
    ensures a.id in References(b) && b.id in References(a)
  {
    var first, second := VersionId(VolumeId("a"), 1), VersionId(VolumeId("b"), 1);
    a := VersionInfo(first, None, Some(second), None, Restore, ns, "s", 0, true);
    b := VersionInfo(second, None, Some(first), None, Restore, ns, "s", 0, true);
  }

  /** `validate_for_volume` admits exactly the records of the volume with a positive sequence
      number and a valid namespace whose parent and restore source, where present, are earlier
      versions of that volume. */
  lemma ForVolumeOrdersReferences(info: VersionInfo, volume: VolumeId)
    ensures InfoValidForVolume(info, volume) <==>
      && info.id.volume == volume && info.id.sequence != 0 && Valid(info.namespace)
      && (info.parent.Some? ==> Precedes(info.parent.value, info.id))
      && (info.restoredFrom.Some? ==> Precedes(info.restoredFrom.value, info.id))
  {
    hide Valid;
    if InfoValidForVolume(info, volume) {
      assert info.restoredFrom.Some? ==> info.restoredFrom.value in References(info);
    }
  }

  /** Each record of the chain is referenced by the one before it. */
  predicate Ancestry(chain: seq<VersionInfo>) {
    forall k | 0 <= k < |chain| - 1 :: chain[k + 1].id in References(chain[k])
  }

  /** Following parents and restore sources among admitted records strictly descends, so a
      chain never repeats a version and ends within `sequence` records. */
  lemma {:induction false} AncestryDescends(chain: seq<VersionInfo>, volume: VolumeId)
    requires chain != [] && Ancestry(chain)
    requires forall k | 0 <= k < |chain| :: InfoValidForVolume(chain[k], volume)
    ensures forall k | 0 < k < |chain| :: Precedes(chain[k].id, chain[0].id)
    ensures |chain| <= chain[0].id.sequence
    decreases |chain|
  {
    ForVolumeOrdersReferences(chain[0], volume);
    if |chain| > 1 {
      var rest := chain[1..];
      forall k | 0 <= k < |rest| - 1 ensures rest[k + 1].id in References(rest[k]) {
        assert chain[k + 2].id in References(chain[k + 1]);
      }
      AncestryDescends(rest, volume);
      assert chain[0 + 1].id in References(chain[0]);
      forall k | 0 < k < |chain| ensures Precedes(chain[k].id, chain[0].id) {
        assert chain[k] == rest[k - 1];
      }
    } else {
      SequencePositive(chain[0], volume);
    }
  }

  lemma SequencePositive(info: VersionInfo, volume: VolumeId)
    requires InfoValidForVolume(info, volume)
    ensures info.id.sequence > 0
  {
  }
}

/** Reading and patching the two SDK versions of an LC_VERSION_MIN load command. */
module SdkVersionPatcher {
  import opened Bytes
  import opened Reading
  import opened Sections
  import opened MachOSpec

  /** Major and minor version; the source's `int`s may have any value. */
  datatype Version = Version(major: int, minor: int)

  // ---------------------------------------------------------------------------------------------
  // Encoding
  // ---------------------------------------------------------------------------------------------

  /** Bitwise or of two numbers of 16 bits. */
  function Or16(a: nat, b: nat): (r: nat)
    requires a < 0x1_0000 && b < 0x1_0000
    ensures r < 0x1_0000
    ensures b == 0 ==> r == a
  {
    if b == 0 then a else (a as bv16 | b as bv16) as nat
  }

  /**
   The 32 bits of `major << 16 | minor << 8`: the low byte is zero, the second one is the low byte of
   the minor version, and what is above that byte goes into the same bits as the major version.
   */
  function EncodeVersion(v: Version): (r: nat)
    ensures r < TWO32
  {
    Or16(v.major % 0x1_0000, (v.minor / 256) % 0x1_0000) * 0x1_0000 + (v.minor % 256) * 256
  }

  /** `n >> 16`, and `(n & 0xFFF) >> 8`: of the minor version only four bits are kept. */
  function DecodeVersion(n: nat): Version {
    Version(n / 0x1_0000, n % 0x1000 / 256)
  }

  /** Versions that survive being written and read again. */
  predicate IsKept(v: Version) {
    0 <= v.major < 0x1_0000 && 0 <= v.minor < 16
  }

  /** Exactly the versions with a major part of 16 bits and a minor part of four bits survive. */
  lemma KeptExactlyWhen(v: Version)
    ensures DecodeVersion(EncodeVersion(v)) == v <==> IsKept(v)
  {
    hide Or16, EncodeVersion;
    var h, l := Or16(v.major % 0x1_0000, (v.minor / 256) % 0x1_0000), v.minor % 256;
    EncodedIs(v);
    Decoded(h, l);
    if DecodeVersion(EncodeVersion(v)) == v {
      assert v.minor / 256 == 0;
    }
  }

  lemma EncodedIs(v: Version)
    ensures EncodeVersion(v) == Or16(v.major % 0x1_0000, (v.minor / 256) % 0x1_0000) * 0x1_0000 + (v.minor % 256) * 256
  {
    hide Or16;
  }

  lemma Decoded(h: nat, l: nat)
    requires h < 0x1_0000 && l < 256
    ensures DecodeVersion(h * 0x1_0000 + l * 256) == Version(h, l % 16)
  {
    var q, r := l / 16, l % 16;
    var n := h * 0x1_0000 + l * 256;
    assert n == 0x1000 * (16 * h + q) + 256 * r;
    assert n % 0x1000 == 256 * r;
  }

  /** The fifth bit of a minor version is written, and not read: 10.16 comes back as 10.0. */
  lemma MinorSixteenIsLost()
    ensures DecodeVersion(EncodeVersion(Version(10, 16))) == Version(10, 0)
  {
    hide Or16;
    assert EncodeVersion(Version(10, 16)) == 10 * 0x1_0000 + 0x1000;
  }

  /** The four bytes that the source takes from a `long`. */
  function LongToData(n: nat): (r: seq<Byte>)
    ensures |r| == 4
  {
    LittleBytes(n, 4)
  }

  lemma LongReadsBack(n: nat)
    requires n < TWO32
    ensures UInt(LongToData(n), Little) == n
  {
    assert Power(4) == TWO32 by { assert Power(1) == 256 && Power(2) == 0x1_0000 && Power(3) == 0x100_0000; }
    LittleRoundTrip(n, 4);
  }

  // ---------------------------------------------------------------------------------------------
  // The patcher
  // ---------------------------------------------------------------------------------------------

  predicate IsVersionKind(kind: Kind) {
    kind == MinMacOsx || kind == MinIphoneOs || kind == MinWatchOs || kind == MinTvOs
  }

  /** The version that starts at `pos` of the data. */
  function VersionAt(data: seq<Byte>, pos: nat): Version
    requires pos + 4 <= |data|
  {
    DecodeVersion(UInt(data[pos..pos + 4], Little))
  }

  class MacSdkVersionPatcher {
    const section: Section
    const kind: Kind
    var valid: bool
    var target: Version
    var sdk: Version

    /** What the fields say of the section, as long as only this object changes it. */
    ghost predicate Agrees()
      reads this, section
    {
      && (valid <==> |section.data| == 8 && IsVersionKind(kind))
      && (valid ==> (IsKept(target) ==> target == VersionAt(section.data, 0))
                    && (IsKept(sdk) ==> sdk == VersionAt(section.data, 4)))
    }

    constructor (section: Section, kind: Kind)
      ensures this.section == section && this.kind == kind && Agrees()
      ensures valid ==> target == VersionAt(section.data, 0) && sdk == VersionAt(section.data, 4)
    {
      this.section, this.kind := section, kind;
      valid, target, sdk := false, Version(0, 0), Version(0, 0);
      new;
      Parse();
    }

    method Parse()
      modifies this
      ensures valid <==> |section.data| == 8 && IsVersionKind(kind)
      ensures valid ==> target == VersionAt(section.data, 0) && sdk == VersionAt(section.data, 4)
      ensures !valid ==> target == old(target) && sdk == old(sdk)
    {
      valid := false;
      if section.data == [] || |section.data| != 4 * 2 || !IsVersionKind(kind) {
        return;
      }
      var reader := new Reader(section.data, Little);
      var ok, n := reader.GetUInt(4);
      if !ok { return; }
      target := DecodeVersion(n);
      ok, n := reader.GetUInt(4);
      if !ok { return; }
      sdk := DecodeVersion(n);
      valid := true;
    }

    method Patch(version: Version, pos: nat)
      requires |section.data| == 8 && (pos == 0 || pos == 4)
      modifies section
      ensures |section.data| == 8
      ensures VersionAt(section.data, pos) == DecodeVersion(EncodeVersion(version))
      ensures forall i | 0 <= i < 8 && !(pos <= i < pos + 4) :: section.data[i] == old(section.data[i])
      ensures section.modifiedRegions == Pruned(old(section.modifiedRegions) + [Region(pos, 4)])
    {
      hide Pruned, EncodeVersion, DecodeVersion;
      var data := LongToData(EncodeVersion(version));
      section.SetSubData(data, pos);
      LongReadsBack(EncodeVersion(version));
      assert section.data[pos..pos + 4] == data;
    }

    method SetTarget(version: Version) returns (changed: bool)
      requires valid && Agrees()
      modifies this, section
      ensures Agrees() && valid && changed == (version != old(target)) && target == version && sdk == old(sdk)
      ensures changed ==> VersionAt(section.data, 0) == DecodeVersion(EncodeVersion(version))
      ensures section.data[4..] == old(section.data[4..])
      ensures !changed ==> section.Value() == old(section.Value())
    {
      if version == target { return false; }
      hide EncodeVersion, DecodeVersion;
      target := version;
      Patch(version, 0);
      KeptExactlyWhen(version);
      assert section.data[4..8] == old(section.data[4..8]);
      changed := true;
    }

    method SetSdk(version: Version) returns (changed: bool)
      requires valid && Agrees()
      modifies this, section
      ensures Agrees() && valid && changed == (version != old(sdk)) && sdk == version && target == old(target)
      ensures changed ==> VersionAt(section.data, 4) == DecodeVersion(EncodeVersion(version))
      ensures section.data[..4] == old(section.data[..4])
      ensures !changed ==> section.Value() == old(section.Value())
    {
      if version == sdk { return false; }
      hide EncodeVersion, DecodeVersion;
      sdk := version;
      Patch(version, 4);
      KeptExactlyWhen(version);
      assert section.data[0..4] == old(section.data[0..4]);
      changed := true;
    }
  }

  // ---------------------------------------------------------------------------------------------
  // Runs
  // ---------------------------------------------------------------------------------------------

  datatype Setting = Target(version: Version) | Sdk(version: Version)

  /** Makes the settings one after the other, and reads the section again. */
  method SetAll(patcher: MacSdkVersionPatcher, settings: seq<Setting>) returns (again: MacSdkVersionPatcher)
    requires patcher.valid && patcher.Agrees()
    requires IsKept(patcher.target) && IsKept(patcher.sdk)
    requires forall i | 0 <= i < |settings| :: IsKept(settings[i].version)
    modifies patcher, patcher.section
    ensures again.valid && again.target == patcher.target && again.sdk == patcher.sdk
    ensures patcher.target == LastTarget(old(patcher.target), settings)
    ensures patcher.sdk == LastSdk(old(patcher.sdk), settings)
  {
    for i := 0 to |settings|
      invariant patcher.valid && patcher.Agrees() && IsKept(patcher.target) && IsKept(patcher.sdk)
      invariant LastTarget(old(patcher.target), settings) == LastTarget(patcher.target, settings[i..])
      invariant LastSdk(old(patcher.sdk), settings) == LastSdk(patcher.sdk, settings[i..])
    {
      var s := settings[i];
      assert settings[i..][0] == s && settings[i..][1..] == settings[i + 1..];
      var changed;
      if s.Target? {
        changed := patcher.SetTarget(s.version);
      } else {
        changed := patcher.SetSdk(s.version);
      }
    }
    again := new MacSdkVersionPatcher(patcher.section, patcher.kind);
  }

  function LastTarget(v: Version, settings: seq<Setting>): Version
    decreases |settings|
  {
    if settings == [] then v
    else LastTarget(if settings[0].Target? then settings[0].version else v, settings[1..])
  }

  function LastSdk(v: Version, settings: seq<Setting>): Version
    decreases |settings|
  {
    if settings == [] then v
    else LastSdk(if settings[0].Sdk? then settings[0].version else v, settings[1..])
  }
}

// The ext2/3/4 superblock: the fields a probe looks at, how it recognises
// the filesystem, and how it tells the three revisions apart by features.
module Ext {
  import opened Wrappers
  import opened Bytes
  import opened ByteStruct

  const ExtMagic: nat := 0xEF53

  /** Where the superblock starts on the device, and how many bytes a probe reads. */
  const SuperblockOffset: nat := 0x400
  const SuperblockSize: nat := 0x400

  const RoCompatHugeFile: bv32 := 0x0008
  const RoCompatGdtCsum: bv32 := 0x0010
  const RoCompatDirNlink: bv32 := 0x0020
  const RoCompatExtraIsize: bv32 := 0x0040
  const RoCompatBigalloc: bv32 := 0x0200

  const IncompatMetaBg: bv32 := 0x0010
  const IncompatExtents: bv32 := 0x0040
  const Incompat64Bit: bv32 := 0x0080
  const IncompatMmp: bv32 := 0x0100
  const IncompatFlexBg: bv32 := 0x0200

  const CompatHasJournal: bv32 := 0x0004
  const CompatDirIndex: bv32 := 0x0020

  /** The read-only compatible and incompatible features ext4 introduced, and the compatible ones of ext3. */
  const Ext4RoFeatures: seq<bv32> := [RoCompatBigalloc, RoCompatDirNlink, RoCompatExtraIsize, RoCompatHugeFile, RoCompatGdtCsum]
  const Ext4IncompatFeatures: seq<bv32> := [Incompat64Bit, IncompatExtents, IncompatFlexBg, IncompatMetaBg, IncompatMmp]
  const Ext3CompatFeatures: seq<bv32> := [CompatDirIndex, CompatHasJournal]

  /** The fields of `ExtSuperBlock` that validation, naming and the probe's label and UUID use. */
  datatype ExtSuperBlock = ExtSuperBlock(
    magic: nat,
    featureCompat: bv32,
    featureIncompat: bv32,
    featureRoCompat: bv32,
    uuid: seq<byte>,
    volumeLabel: seq<byte>)

  /** The derived reader: the fields in declaration order, little-endian, 236 bytes in all. */
  function ReadExtSuperBlock(block: seq<byte>): (r: Read<ExtSuperBlock>)
    ensures |block| < 120 ==> r == Err(UnexpectedEof)
    ensures r.Ok? ==> (|block| >= 236 && r.value.1 == block[236..]
      && r.value.0.uuid == block[104..120] && r.value.0.magic < 0x1_0000)
  {
    if |block| < 120 then Err(UnexpectedEof)
    else match NullTerminated(16, block[120..])
      case Err(e) => Err(e)
      case Ok((name, _)) =>
        match NullTerminated(64, block[136..])
        case Err(e) => Err(e)
        case Ok(_) =>
          if |block| < 236 then Err(UnexpectedEof)
          else
            Ok((ExtSuperBlock(
              ReadInt(U16, block[56..], Little).value.0,
              ReadInt(U32, block[92..], Little).value.0 as bv32,
              ReadInt(U32, block[96..], Little).value.0 as bv32,
              ReadInt(U32, block[100..], Little).value.0 as bv32,
              block[104..120],
              name), block[236..]))
  }

  /** `validate`: the magic number is 0xEF53. */
  predicate Validate(sb: ExtSuperBlock)
  {
    sb.magic == ExtMagic
  }

  /** A little-endian u16: the low byte first. */
  lemma LittleU16(bs: seq<byte>)
    requires |bs| >= 2
    ensures ReadInt(U16, bs, Little).value.0 == bs[0] as int + 256 * bs[1] as int
  {
    var w := bs[..2];
    assert w[1..] == [bs[1]] && [bs[1]][1..] == [];
    assert DecodeLE([bs[1]]) == bs[1] as int;
  }

  /** On the device's bytes, a superblock validates exactly when bytes 0x38 and 0x39 are 0x53 and 0xEF. */
  lemma ValidateOnBytes(block: seq<byte>)
    requires ReadExtSuperBlock(block).Ok?
    ensures Validate(ReadExtSuperBlock(block).value.0) <==> block[0x38] == 0x53 && block[0x39] == 0xEF
  {
    LittleU16(block[56..]);
  }

  /** val has a bit of the feature set. */
  predicate Shares(val: bv32, feature: bv32)
  {
    val & feature != 0
  }

  /** `has_any` as meant: some feature in the list has a bit set in val. */
  predicate HasFeature(val: bv32, features: seq<bv32>)
  {
    exists i :: 0 <= i < |features| && Shares(val, features[i])
  }

  /** `has_any`: the first feature found sets the answer. */
  method HasAny(val: bv32, features: seq<bv32>) returns (r: bool)
    ensures r == HasFeature(val, features)
  {
    for i := 0 to |features|
      invariant forall j :: 0 <= j < i ==> !Shares(val, features[j])
    {
      if val & features[i] != 0 {
        return true;
      }
    }
    return false;
  }

  /** All the bits of a list of features. */
  function Mask(features: seq<bv32>): bv32
  {
    if features == [] then 0 else features[0] | Mask(features[1..])
  }

  lemma AndDistributes(val: bv32, a: bv32, b: bv32)
    ensures val & (a | b) == (val & a) | (val & b)
  {
  }

  lemma OrZero(x: bv32, y: bv32)
    ensures x | y == 0 <==> x == 0 && y == 0
  {
  }

  lemma AndOr(val: bv32, a: bv32, b: bv32)
    ensures Shares(val, a | b) <==> Shares(val, a) || Shares(val, b)
  {
    AndDistributes(val, a, b);
    OrZero(val & a, val & b);
  }

  lemma HasFeatureCons(val: bv32, features: seq<bv32>)
    requires features != []
    ensures HasFeature(val, features) <==> Shares(val, features[0]) || HasFeature(val, features[1..])
  {
    var rest := features[1..];
    if HasFeature(val, rest) {
      var i :| 0 <= i < |rest| && Shares(val, rest[i]);
      assert features[i + 1] == rest[i];
    }
    if HasFeature(val, features) {
      var i :| 0 <= i < |features| && Shares(val, features[i]);
      if i > 0 {
        assert rest[i - 1] == features[i];
      }
    }
  }

  lemma MaskStep(val: bv32, features: seq<bv32>)
    requires features != []
    requires HasFeature(val, features[1..]) <==> Shares(val, Mask(features[1..]))
    ensures HasFeature(val, features) <==> Shares(val, Mask(features))
  {
    HasFeatureCons(val, features);
    AndOr(val, features[0], Mask(features[1..]));
  }

  lemma ShareNothing(val: bv32)
    ensures !Shares(val, 0)
  {
  }

  /** Some feature has a bit in val exactly when val shares a bit with their mask. */
  lemma {:induction false} HasFeatureMask(val: bv32, features: seq<bv32>)
    ensures HasFeature(val, features) <==> Shares(val, Mask(features))
  {
    if features == [] {
      ShareNothing(val);
    } else {
      HasFeatureMask(val, features[1..]);
      MaskStep(val, features);
    }
  }

  /** The three feature lists as masks. */
  lemma FeatureMasks()
    ensures Mask(Ext4RoFeatures) == 0x278
    ensures Mask(Ext4IncompatFeatures) == 0x3D0
    ensures Mask(Ext3CompatFeatures) == 0x24
  {
    var ro := Ext4RoFeatures;
    assert ro[1..] == [0x20, 0x40, 0x8, 0x10] && ro[2..] == [0x40, 0x8, 0x10] && ro[3..] == [0x8, 0x10] && ro[4..] == [0x10] && ro[5..] == [];
    assert Mask(ro[4..]) == 0x10;
    assert Mask(ro[3..]) == 0x18;
    assert Mask(ro[2..]) == 0x58;
    assert Mask(ro[1..]) == 0x78;
    var inc := Ext4IncompatFeatures;
    assert inc[1..] == [0x40, 0x200, 0x10, 0x100] && inc[2..] == [0x200, 0x10, 0x100] && inc[3..] == [0x10, 0x100] && inc[4..] == [0x100] && inc[5..] == [];
    assert Mask(inc[4..]) == 0x100;
    assert Mask(inc[3..]) == 0x110;
    assert Mask(inc[2..]) == 0x310;
    assert Mask(inc[1..]) == 0x350;
    var c := Ext3CompatFeatures;
    assert c[1..] == [0x4] && c[2..] == [];
    assert Mask(c[1..]) == 0x4;
  }

  datatype ExtType = Ext2 | Ext3 | Ext4

  /** `ext_type`: ext4 when any ext4 feature is set, else ext3 when a directory index or journal is, else ext2. */
  function TypeOf(sb: ExtSuperBlock): (t: ExtType)
    ensures t == Ext4 <==> sb.featureRoCompat & 0x278 != 0 || sb.featureIncompat & 0x3D0 != 0
    ensures t == Ext3 <==> sb.featureRoCompat & 0x278 == 0 && sb.featureIncompat & 0x3D0 == 0 && sb.featureCompat & 0x24 != 0
  {
    HasFeatureMask(sb.featureRoCompat, Ext4RoFeatures);
    HasFeatureMask(sb.featureIncompat, Ext4IncompatFeatures);
    HasFeatureMask(sb.featureCompat, Ext3CompatFeatures);
    FeatureMasks();
    if HasFeature(sb.featureRoCompat, Ext4RoFeatures) || HasFeature(sb.featureIncompat, Ext4IncompatFeatures) then Ext4
    else if HasFeature(sb.featureCompat, Ext3CompatFeatures) then Ext3
    else Ext2
  }

  /** `name`: the revision's name. */
  function Name(sb: ExtSuperBlock): (n: string)
    ensures n == "ext4" <==> TypeOf(sb) == Ext4
    ensures n == "ext3" <==> TypeOf(sb) == Ext3
    ensures n == "ext2" <==> TypeOf(sb) == Ext2
  {
    match TypeOf(sb)
    case Ext2 => "ext2"
    case Ext3 => "ext3"
    case Ext4 => "ext4"
  }

  /** With no feature bits at all a filesystem is ext2, and a journal alone makes it ext3. */
  lemma PlainRevisions(sb: ExtSuperBlock)
    requires sb.featureRoCompat == 0 && sb.featureIncompat == 0
    ensures sb.featureCompat == 0 ==> Name(sb) == "ext2"
    ensures sb.featureCompat == CompatHasJournal ==> Name(sb) == "ext3"
  {
  }
}

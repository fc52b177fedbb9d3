/**
 * DawnFeatures: the feature bit-mask translation of
 * lib/lib_webgpu_dawn.cpp. Bit `i` of a `WGPU_FEATURES_BITFIELD` stands
 * for entry `i` of `WGPU_FEATURES_BITFIELD_to_Dawn`. Whether the adapter
 * or device has a Dawn feature (`wgpuAdapterHasFeature`,
 * `wgpuDeviceHasFeature`) is the parameter `has`: the set of features
 * that object reports.
 */
module DawnFeatures {
  import opened Text
  import opened Bits
  import Dawn

  /** The Dawn feature names the table uses. */
  datatype DawnFeature =
    | DepthClipControl | Depth32FloatStencil8 | TextureCompressionBC | Force32
    | TextureCompressionETC2 | TextureCompressionASTC | TimestampQuery
    | IndirectFirstInstance | ShaderF16 | RG11B10UfloatRenderable | BGRA8UnormStorage
    | Float32Filterable | ClipDistances | DualSourceBlending

  /**
   * `WGPU_FEATURES_BITFIELD_to_Dawn` (lib/lib_webgpu_dawn.cpp:103-118).
   * Entry 3 has no Dawn equivalent and holds the placeholder `Force32`.
   */
  const FeatureTable: seq<DawnFeature> := [
    DepthClipControl, Depth32FloatStencil8, TextureCompressionBC, Force32,
    TextureCompressionETC2, TextureCompressionASTC, TimestampQuery,
    IndirectFirstInstance, ShaderF16, RG11B10UfloatRenderable, BGRA8UnormStorage,
    Float32Filterable, ClipDistances, DualSourceBlending
  ]

  /** The number of table entries. */
  const TableSize: bv32 := 14

  /** `_wgpu_num_features` as written (lib/lib_webgpu_dawn.cpp:119): one short of the table. */
  const NumFeatures: bv32 := 13

  lemma TableIndex(i: bv32)
    requires i < TableSize
    ensures 0 <= i as int < |FeatureTable|
  {
  }

  /**
   * The assertion at lib/lib_webgpu_dawn.cpp:997 and 1015 as written:
   * `type != Device || type != Adapter`.
   */
  predicate AdapterOrDeviceCheckAsWritten(kind: Dawn.ObjectType)
  {
    kind != Dawn.Device || kind != Dawn.Adapter
  }

  /** What that assertion is meant to check: the object is an adapter or a device. */
  predicate AdapterOrDeviceCheck(kind: Dawn.ObjectType)
  {
    kind == Dawn.Device || kind == Dawn.Adapter
  }

  /** The assertion as written holds for every object type, a buffer included. */
  lemma AdapterOrDeviceCheckAsWrittenAcceptsAll(kind: Dawn.ObjectType)
    ensures AdapterOrDeviceCheckAsWritten(kind)
    ensures AdapterOrDeviceCheckAsWritten(Dawn.Buffer)
  {
  }

  /** The intended check holds for adapters and devices and rejects every other type. */
  lemma AdapterOrDeviceCheckRejectsOthers(kind: Dawn.ObjectType)
    ensures AdapterOrDeviceCheck(kind) <==> kind in {Dawn.Adapter, Dawn.Device}
    ensures !AdapterOrDeviceCheck(Dawn.Buffer) && !AdapterOrDeviceCheck(Dawn.CanvasContext)
  {
  }

  /** The mask with bit `i` set for each of the first `n` entries that `has` holds. */
  function FeatureMask(has: set<DawnFeature>, n: bv32): bv32
    requires n <= TableSize
    decreases n as int
  {
    if n == 0 then 0
    else FeatureMask(has, n - 1) | (if FeatureTable[(n - 1) as int] in has then Bit(n - 1) else 0)
  }

  /** No bit from `n` up is set in `FeatureMask(has, n)`. */
  lemma {:induction false} FeatureMaskBound(has: set<DawnFeature>, n: bv32)
    requires n <= TableSize
    ensures FeatureMask(has, n) < Bit(n)
    decreases n as int
  {
    if n > 0 {
      var before := FeatureMask(has, n - 1);
      FeatureMaskBound(has, n - 1);
      if FeatureTable[(n - 1) as int] in has {
        SetBitBelow(before, n - 1);
      }
    }
  }

  /** Bit `j` of `FeatureMask(has, n)` is set exactly when `j < n` and entry `j` is held. */
  lemma {:induction false} FeatureMaskBit(has: set<DawnFeature>, n: bv32, j: bv32)
    requires n <= TableSize && j < 32
    ensures HasBit(FeatureMask(has, n), j) <==> j < n && FeatureTable[j as int] in has
    decreases n as int
  {
    if n == 0 {
      NoBitAbove(0, 0, j);
    } else {
      var before := FeatureMask(has, n - 1);
      FeatureMaskBit(has, n - 1, j);
      if FeatureTable[(n - 1) as int] in has {
        SetBit(before, n - 1, j);
      } else if j == n - 1 {
        FeatureMaskBound(has, n - 1);
        NoBitAbove(before, n - 1, n - 1);
      }
    }
  }

  /**
   * Bit `j` of `FeatureMask(has, n)` is set exactly when `j < n` and
   * entry `j` is held; no bit from `n` up is set.
   */
  lemma FeatureMaskBits(has: set<DawnFeature>, n: bv32)
    requires n <= TableSize
    ensures FeatureMask(has, n) < Bit(n)
    ensures forall j: bv32 | j < 32 ::
      HasBit(FeatureMask(has, n), j) <==> j < n && FeatureTable[j as int] in has
  {
    FeatureMaskBound(has, n);
    forall j: bv32 | j < 32
      ensures HasBit(FeatureMask(has, n), j) <==> j < n && FeatureTable[j as int] in has
    {
      FeatureMaskBit(has, n, j);
    }
  }

  /** Doubling `1 << i` gives the next bit. */
  lemma DoubleBit(i: bv32)
    requires i < 31
    ensures Bit(i) * 2 == Bit(i + 1)
  {
  }

  /** One step of the mask loop: entry `i` decides bit `i`, and `id` doubles. */
  lemma MaskStep(has: set<DawnFeature>, i: bv32, id: bv32, mask: bv32)
    requires i < TableSize && id == Bit(i) && mask == FeatureMask(has, i)
    ensures (if FeatureTable[i as int] in has then mask | id else mask) == FeatureMask(has, i + 1)
    ensures id * 2 == Bit(i + 1)
  {
    DoubleBit(i);
    MaskUnfold(has, i + 1);
  }

  /** The last entry of `FeatureMask(has, n)`. */
  lemma MaskUnfold(has: set<DawnFeature>, n: bv32)
    requires 0 < n <= TableSize
    ensures FeatureMask(has, n) ==
      if FeatureTable[(n - 1) as int] in has then FeatureMask(has, n - 1) | Bit(n - 1) else FeatureMask(has, n - 1)
  {
  }

  /** The loop of `wgpu_adapter_or_device_get_features` over the first `n` entries. */
  method MaskOfFirst(has: set<DawnFeature>, n: bv32) returns (mask: bv32)
    requires n <= TableSize
    ensures mask == FeatureMask(has, n)
  {
    mask := 0;
    var i: bv32 := 0;
    var id: bv32 := 1;
    while i < n
      invariant i <= n && id == Bit(i) && mask == FeatureMask(has, i)
      decreases n - i
    {
      MaskStep(has, i, id, mask);
      if FeatureTable[i as int] in has {
        mask := mask | id;
      }
      id := id * 2;
      i := i + 1;
    }
  }

  /**
   * `wgpu_adapter_or_device_get_features` as written
   * (lib/lib_webgpu_dawn.cpp:995-1011): bit `i` for each supported entry
   * `i` below `_wgpu_num_features`, so the last entry is never reported.
   */
  method GetFeatures(kind: Dawn.ObjectType, has: set<DawnFeature>) returns (mask: bv32)
    requires AdapterOrDeviceCheckAsWritten(kind)
    ensures mask == FeatureMask(has, NumFeatures)
    ensures mask < Bit(NumFeatures)
    ensures forall j: bv32 | j < 32 ::
      HasBit(mask, j) <==> j < NumFeatures && FeatureTable[j as int] in has
  {
    mask := MaskOfFirst(has, NumFeatures);
    FeatureMaskBits(has, NumFeatures);
  }

  /** `wgpu_adapter_or_device_get_features` over the whole table. */
  method GetFeaturesCorrected(kind: Dawn.ObjectType, has: set<DawnFeature>) returns (mask: bv32)
    requires AdapterOrDeviceCheck(kind)
    ensures mask == FeatureMask(has, TableSize)
    ensures mask < Bit(TableSize)
    ensures forall j: bv32 | j < 32 ::
      HasBit(mask, j) <==> j < TableSize && FeatureTable[j as int] in has
  {
    mask := MaskOfFirst(has, TableSize);
    FeatureMaskBits(has, TableSize);
  }

  /**
   * With `_wgpu_num_features` = 13 an adapter that has dual-source
   * blending never reports it; over the whole table it does.
   */
  lemma LastFeatureNeverReported(has: set<DawnFeature>)
    requires DualSourceBlending in has
    ensures !HasBit(FeatureMask(has, NumFeatures), 13)
    ensures HasBit(FeatureMask(has, TableSize), 13)
  {
    FeatureMaskBits(has, NumFeatures);
    FeatureMaskBits(has, TableSize);
  }

  /** The entries whose bit is set in `v`, among the first `n`, in table order. */
  function Requested(v: bv32, n: bv32): seq<DawnFeature>
    requires n <= TableSize
    decreases n as int
  {
    if n == 0 then []
    else Requested(v, n - 1) + (if HasBit(v, n - 1) then [FeatureTable[(n - 1) as int]] else [])
  }

  /** One step of the list loop: bit `i` decides entry `i`, and `id` doubles. */
  lemma ListStep(required: bv32, i: bv32, id: bv32, features: seq<DawnFeature>)
    requires i < TableSize && id == Bit(i) && features == Requested(required, i)
    ensures (if required & id != 0 then features + [FeatureTable[i as int]] else features) == Requested(required, i + 1)
    ensures id * 2 == Bit(i + 1)
  {
    MaskTest(required, i);
    DoubleBit(i);
  }

  /** The loop of `wgpu_adapter_request_device_sync` over the first `n` entries. */
  method ListOfFirst(required: bv32, n: bv32) returns (features: seq<DawnFeature>)
    requires n <= TableSize
    ensures features == Requested(required, n)
  {
    features := [];
    var i: bv32 := 0;
    var id: bv32 := 1;
    while i < n
      invariant i <= n && id == Bit(i) && features == Requested(required, i)
      decreases n - i
    {
      ListStep(required, i, id, features);
      if required & id != 0 {
        features := features + [FeatureTable[i as int]];
      }
      i, id := i + 1, id * 2;
    }
  }

  /**
   * The required-feature list of `wgpu_adapter_request_device_sync` as
   * written (lib/lib_webgpu_dawn.cpp:1096-1099): entry `i` for each set
   * bit `i` below `_wgpu_num_features`, in ascending order.
   */
  method RequestDeviceFeatures(required: bv32) returns (features: seq<DawnFeature>)
    ensures features == Requested(required, NumFeatures)
  {
    features := ListOfFirst(required, NumFeatures);
  }

  /** The required-feature list over the whole table. */
  method RequestDeviceFeaturesCorrected(required: bv32) returns (features: seq<DawnFeature>)
    ensures features == Requested(required, TableSize)
  {
    features := ListOfFirst(required, TableSize);
  }

  /**
   * Requesting the features of a mask built from `has` lists exactly
   * the held entries among the first `n`, in table order.
   */
  lemma {:induction false} RequestedOfMask(has: set<DawnFeature>, n: bv32)
    requires n <= TableSize
    ensures Requested(FeatureMask(has, n), n) == Filter(FeatureTable[..n as int], has)
    decreases n as int
  {
    if n > 0 {
      var i := n - 1;
      RequestedOfMaskStep(has, n);
      RequestedOfMask(has, i);
      FilterPrefix(FeatureTable, i as int, has);
    }
  }

  /** The last bit of `FeatureMask(has, n)` decides the last element of the list. */
  lemma RequestedOfMaskStep(has: set<DawnFeature>, n: bv32)
    requires 0 < n <= TableSize
    ensures Requested(FeatureMask(has, n), n) ==
      Requested(FeatureMask(has, n - 1), n - 1) +
      (if FeatureTable[(n - 1) as int] in has then [FeatureTable[(n - 1) as int]] else [])
  {
    FeatureMaskBits(has, n);
    FeatureMaskBits(has, n - 1);
    RequestedAgree(FeatureMask(has, n), FeatureMask(has, n - 1), n - 1);
  }

  /** Two masks with the same bits below `n` request the same features. */
  lemma {:induction false} RequestedAgree(v: bv32, w: bv32, n: bv32)
    requires n <= TableSize
    requires forall j: bv32 | j < n :: HasBit(v, j) == HasBit(w, j)
    ensures Requested(v, n) == Requested(w, n)
    decreases n as int
  {
    if n > 0 {
      RequestedAgree(v, w, n - 1);
    }
  }

  /**
   * Corrected round trip: a device requested with the mask an adapter
   * reported gets exactly the adapter's features, in table order.
   */
  lemma FeaturesRoundTrip(has: set<DawnFeature>)
    ensures Requested(FeatureMask(has, TableSize), TableSize) == Filter(FeatureTable, has)
    ensures forall x :: x in Requested(FeatureMask(has, TableSize), TableSize) <==> x in FeatureTable && x in has
  {
    RequestedOfMask(has, TableSize);
    assert FeatureTable[..TableSize as int] == FeatureTable;
  }

  /**
   * `wgpu_adapter_or_device_supports_feature` as written
   * (lib/lib_webgpu_dawn.cpp:1013-1024): looks up entry
   * `32 - clz32(feature)`, false from `_wgpu_num_features` on.
   */
  function SupportsFeatureAsWritten(kind: Dawn.ObjectType, has: set<DawnFeature>, feature: bv32): bool
    requires AdapterOrDeviceCheckAsWritten(kind)
  {
    var fi := 32 - Clz32(feature) as int;
    fi < NumFeatures as int && FeatureTable[fi] in has
  }

  /**
   * As written, `supports_feature(1 << i)` answers for entry `i + 1`
   * and `supports_feature(0)` for entry 0.
   */
  lemma SupportsFeatureAsWrittenShifted(kind: Dawn.ObjectType, has: set<DawnFeature>, i: bv32)
    requires AdapterOrDeviceCheckAsWritten(kind) && i < 32
    ensures SupportsFeatureAsWritten(kind, has, Bit(i)) <==>
      i + 1 < NumFeatures && FeatureTable[(i + 1) as int] in has
    ensures SupportsFeatureAsWritten(kind, has, 0) <==> FeatureTable[0] in has
  {
    Clz32OfBit(i);
  }

  /**
   * An adapter with only depth-clip control: `get_features` reports bit
   * 0, yet `supports_feature(1)` is false and `supports_feature(0)` is
   * true, against both checks of test/wgpu_adapter_supports_feature.cpp.
   */
  lemma SupportsFeatureAsWrittenOffByOne(kind: Dawn.ObjectType, has: set<DawnFeature>)
    requires AdapterOrDeviceCheckAsWritten(kind) && has == {DepthClipControl}
    ensures HasBit(FeatureMask(has, NumFeatures), 0)
    ensures !SupportsFeatureAsWritten(kind, has, Bit(0))
    ensures SupportsFeatureAsWritten(kind, has, 0)
  {
    FeatureMaskBits(has, NumFeatures);
    SupportsFeatureAsWrittenShifted(kind, has, 0);
  }

  /**
   * `supports_feature` looking up entry `31 - clz32(feature)`, the index
   * of the top set bit, over the whole table.
   */
  function SupportsFeature(kind: Dawn.ObjectType, has: set<DawnFeature>, feature: bv32): bool
    requires AdapterOrDeviceCheck(kind)
  {
    var fi := 31 - Clz32(feature) as int;
    0 <= fi < TableSize as int && FeatureTable[fi] in has
  }

  /**
   * The property test/wgpu_adapter_supports_feature.cpp:12-17 checks:
   * `supports_feature(1 << i)` agrees with bit `i` of `get_features`, and
   * `supports_feature(0)` is false.
   */
  lemma SupportsAgreesWithGetFeatures(kind: Dawn.ObjectType, has: set<DawnFeature>, i: bv32)
    requires AdapterOrDeviceCheck(kind) && i < 32
    ensures SupportsFeature(kind, has, Bit(i)) <==> HasBit(FeatureMask(has, TableSize), i)
    ensures !SupportsFeature(kind, has, 0)
  {
    TopBitIndex(i);
    Clz32OfBit(i);
    FeatureMaskBits(has, TableSize);
  }
}

/**
 * Dawn: the native bookkeeping of lib/lib_webgpu_dawn.cpp, the build of
 * the library that runs on top of Dawn instead of a browser.
 *
 * Every Dawn object is wrapped in a small heap record (`_WGpuObject`)
 * whose address is the id handed to the application. A global map sends
 * each Dawn object back to its wrapper; a buffer's wrapper also carries
 * the buffer's map state. Feature sets cross the API as bit masks that
 * are translated through a fixed table of Dawn feature names.
 *
 * Dawn objects and wrappers are modelled by integer handles; every
 * wrapper ever allocated is kept in `objects`, so a wrapper that was
 * destroyed still shows the fields it was left with.
 */
module Dawn {
  import opened Text
  import Bits

  /** A Dawn object pointer; 0 is `nullptr`. */
  type Handle = int

  /** A wrapper pointer (`WGpuObjectBase`); 0 is null, wrapper `k` is `objects[k - 1]`. */
  type WrapperId = nat

  /** `_WgpuObjectType` (lib/lib_webgpu_dawn.cpp:16-40). */
  datatype ObjectType =
    | Invalid | Adapter | Device | BindGroupLayout | Buffer | Texture | TextureView
    | ExternalTexture | Sampler | BindGroup | PipelineLayout | ShaderModule
    | ComputePipeline | RenderPipeline | CommandBuffer | CommandEncoder
    | ComputePassEncoder | RenderPassEncoder | RenderBundle | RenderBundleEncoder
    | Queue | QuerySet | CanvasContext

  /** `_WGpuBufferMapState` (lib/lib_webgpu_dawn.cpp:42-47). */
  datatype MapState = Unmapped | Pending | MappedForWriting | MappedForReading

  /** A wrapper record: `_WGpuObject`, or `_WGpuObjectBuffer` with its map state. */
  datatype Wrapper =
    | Plain(kind: ObjectType, dawn: Handle)
    | BufferWrapper(kind: ObjectType, dawn: Handle, state: MapState)

  /** The record `_wgpu_store` allocates: buffers start unmapped. */
  function NewWrapper(kind: ObjectType, dawn: Handle): Wrapper
  {
    if kind == Buffer then BufferWrapper(kind, dawn, Unmapped) else Plain(kind, dawn)
  }

  /** What `_wgpu_object_destroy` leaves in a wrapper: no Dawn object, type Invalid. */
  function Released(w: Wrapper): Wrapper
  {
    w.(kind := Invalid, dawn := 0)
  }

  /** `objects` with every wrapper whose id is in `ids` released. */
  function ReleaseAll(objects: seq<Wrapper>, ids: set<WrapperId>): (r: seq<Wrapper>)
    ensures |r| == |objects|
  {
    seq(|objects|, k requires 0 <= k < |objects| => if k + 1 in ids then Released(objects[k]) else objects[k])
  }

  /** `WGPU_MAP_MODE_WRITE` (lib/lib_webgpu.h:581), the same bit as Dawn's `WGPUMapMode_Write`. */
  const MapModeWriteBit: bv32 := 1

  /** Both states in which a mapped range may be read. */
  predicate IsMapped(s: MapState)
  {
    s == MappedForWriting || s == MappedForReading
  }

  /**
   * The state a map request ends in when Dawn calls back
   * (lib/lib_webgpu_dawn.cpp:1786, 1812): writable iff the mode has the
   * write bit. The callback's status is not looked at.
   */
  function CompletedState(mode: bv32): (s: MapState)
    ensures IsMapped(s)
    ensures s == MappedForWriting <==> Bits.HasBit(mode, MapModeWriteBit)
  {
    Bits.MaskTest(mode, MapModeWriteBit);
    if mode & (1 << MapModeWriteBit) != 0 then MappedForWriting else MappedForReading
  }

  /** `WGPU_BUFFER_MAP_STATE_*` (lib/lib_webgpu.h:524-527). */
  const MapStateUnmapped := 1
  const MapStatePending := 2
  const MapStateMapped := 3

  /**
   * `Dawn_to_WGPU_BUFFER_MAP_STATE` (lib/lib_webgpu_dawn.cpp:66-71):
   * never INVALID, and MAPPED exactly for the two mapped states.
   */
  function ReportedMapState(s: MapState): (r: int)
    ensures MapStateUnmapped <= r <= MapStateMapped
    ensures r == MapStateMapped <==> IsMapped(s)
    ensures r == MapStateUnmapped <==> s == Unmapped
  {
    match s
    case Unmapped => MapStateUnmapped
    case Pending => MapStatePending
    case MappedForWriting => MapStateMapped
    case MappedForReading => MapStateMapped
  }

  /** The arguments `wgpu_buffer_get_mapped_range` passes to Dawn. */
  datatype RangeRequest = RangeRequest(writable: bool, offset: int, size: int)

  /**
   * `clz32` (lib/lib_webgpu_dawn.cpp:657-682): 32 for 0, otherwise
   * narrowing the leading zero run by 16, 8, 4, 2 and 1 bits. The
   * result is the one count `Bits.IsLeadingZeros` allows, so it is
   * `Bits.Clz32(x)` (`Bits.LeadingZerosUnique`).
   */
  method Clz32(x: bv32) returns (r: bv32)
    ensures Bits.IsLeadingZeros(x, r)
  {
    if x == 0 {
      return 32;
    }
    var y := x;
    r := 0;
    if y & 0xffff0000 == 0 {
      y := y << 16;
      r := r + 16;
    }
    if y & 0xff000000 == 0 {
      y := y << 8;
      r := r + 8;
    }
    if y & 0xf0000000 == 0 {
      y := y << 4;
      r := r + 4;
    }
    if y & 0xc0000000 == 0 {
      y := y << 2;
      r := r + 2;
    }
    if y & 0x80000000 == 0 {
      y := y << 1;
      r := r + 1;
    }
  }

  /**
   * The wrapper registry: `_dawn_to_webgpu` and the wrapper records it
   * points to.
   */
  class Registry {
    /** `_dawn_to_webgpu`: Dawn object to its wrapper. */
    var dawnToWebgpu: map<Handle, WrapperId>
    /** Every wrapper allocated so far. */
    var objects: seq<Wrapper>

    /**
     * Each registered Dawn object maps to an allocated wrapper of that
     * object, and every buffer wrapper carries a map state.
     */
    ghost predicate Valid()
      reads this
    {
      (forall h | h in dawnToWebgpu :: 1 <= dawnToWebgpu[h] <= |objects| && objects[dawnToWebgpu[h] - 1].dawn == h) &&
      (forall k | 0 <= k < |objects| :: objects[k].kind == Buffer ==> objects[k].BufferWrapper?)
    }

    constructor()
      ensures Valid() && dawnToWebgpu == map[] && objects == []
    {
      dawnToWebgpu := map[];
      objects := [];
    }

    predicate Allocated(id: WrapperId)
      reads this
    {
      1 <= id <= |objects|
    }

    /** `wgpu_is_buffer`, `wgpu_is_device`, ...: non-null and of that type. */
    predicate IsKind(id: WrapperId, kind: ObjectType)
      reads this
    {
      Allocated(id) && objects[id - 1].kind == kind
    }

    /** `wgpu_get_num_live_objects` (lib/lib_webgpu_dawn.cpp:816-818): the map's size. */
    function NumLiveObjects(): nat
      reads this
    {
      |dawnToWebgpu|
    }

    /**
     * `wgpu_is_valid_object` (lib/lib_webgpu_dawn.cpp:861-863): non-null
     * and its Dawn object registered.
     */
    predicate IsValidObject(id: WrapperId)
      requires id == 0 || Allocated(id)
      reads this
    {
      id != 0 && objects[id - 1].dawn in dawnToWebgpu
    }

    /**
     * `_wgpu_get_dawn` (lib/lib_webgpu_dawn.cpp:710-715): null for the
     * null wrapper; the caller asserts the wrapper's type.
     */
    function GetDawn(id: WrapperId, expected: ObjectType): (h: Handle)
      requires id == 0 || IsKind(id, expected)
      reads this
      ensures id == 0 ==> h == 0
    {
      if id == 0 then 0 else objects[id - 1].dawn
    }

    /** A registered Dawn object's wrapper is valid and leads back to it. */
    lemma RegisteredResolves(h: Handle)
      requires Valid() && h in dawnToWebgpu
      ensures Allocated(dawnToWebgpu[h]) && IsValidObject(dawnToWebgpu[h])
      ensures GetDawn(dawnToWebgpu[h], objects[dawnToWebgpu[h] - 1].kind) == h
    {
    }

    /** The map state of a buffer wrapper. */
    function StateOf(id: WrapperId): MapState
      requires Valid() && IsKind(id, Buffer)
      reads this
    {
      objects[id - 1].state
    }

    /** `objects` with buffer `id` moved to state `s`. */
    function WithState(id: WrapperId, s: MapState): (r: seq<Wrapper>)
      requires Valid() && IsKind(id, Buffer)
      reads this
      ensures |r| == |objects|
    {
      objects[id - 1 := objects[id - 1].(state := s)]
    }

    /**
     * `_wgpu_store` (lib/lib_webgpu_dawn.cpp:717-728): allocates a new
     * wrapper and (re)points the Dawn object's map entry at it; storing a
     * Dawn object that is already registered does not raise the count.
     */
    method Store(kind: ObjectType, dawn: Handle) returns (id: WrapperId)
      requires Valid()
      modifies this
      ensures Valid() && IsKind(id, kind)
      ensures objects == old(objects) + [NewWrapper(kind, dawn)] && id == |objects|
      ensures dawnToWebgpu == old(dawnToWebgpu)[dawn := id]
      ensures NumLiveObjects() == old(NumLiveObjects()) + (if dawn in old(dawnToWebgpu) then 0 else 1)
      ensures IsValidObject(id) && GetDawn(id, kind) == dawn
    {
      objects := objects + [NewWrapper(kind, dawn)];
      id := |objects|;
      dawnToWebgpu := dawnToWebgpu[dawn := id];
    }

    /**
     * `_wgpu_store_and_set_parent` (lib/lib_webgpu_dawn.cpp:730-734):
     * derived objects are not tracked, so the parent is ignored.
     */
    method StoreAndSetParent(kind: ObjectType, dawn: Handle, parent: WrapperId) returns (id: WrapperId)
      requires Valid()
      modifies this
      ensures Valid() && IsKind(id, kind)
      ensures objects == old(objects) + [NewWrapper(kind, dawn)] && id == |objects|
      ensures dawnToWebgpu == old(dawnToWebgpu)[dawn := id]
    {
      id := Store(kind, dawn);
    }

    /**
     * `wgpu_object_destroy` (lib/lib_webgpu_dawn.cpp:820-833): nothing
     * for null or for a wrapper whose Dawn object is not registered;
     * otherwise that one map entry goes and the wrapper is released.
     */
    method Destroy(id: WrapperId)
      requires Valid() && (id == 0 || Allocated(id))
      modifies this
      ensures Valid()
      ensures if id == 0 || old(objects[id - 1].dawn) !in old(dawnToWebgpu) then
          dawnToWebgpu == old(dawnToWebgpu) && objects == old(objects)
        else
          dawnToWebgpu == old(dawnToWebgpu) - {old(objects[id - 1].dawn)} &&
          objects == old(objects)[id - 1 := Released(old(objects[id - 1]))] &&
          NumLiveObjects() == old(NumLiveObjects()) - 1
      ensures 0 !in dawnToWebgpu ==> !IsValidObject(id)
    {
      if id == 0 {
        return;
      }
      var d := objects[id - 1].dawn;
      if d !in dawnToWebgpu {
        return;
      }
      dawnToWebgpu := dawnToWebgpu - {d};
      objects := objects[id - 1 := Released(objects[id - 1])];
    }

    /**
     * `wgpu_destroy_all_objects` (lib/lib_webgpu_dawn.cpp:835-842):
     * releases every registered wrapper, then empties the map.
     */
    method DestroyAll()
      requires Valid()
      modifies this
      ensures Valid() && dawnToWebgpu == map[] && NumLiveObjects() == 0 && |objects| == |old(objects)|
      ensures objects == ReleaseAll(old(objects), WrappersOf(old(dawnToWebgpu), old(dawnToWebgpu).Keys))
    {
      var pending := dawnToWebgpu.Keys;
      ReleaseNone(objects);
      while pending != {}
        invariant pending <= dawnToWebgpu.Keys
        invariant dawnToWebgpu == old(dawnToWebgpu) && |objects| == |old(objects)|
        invariant objects == ReleaseAll(old(objects), WrappersOf(dawnToWebgpu, dawnToWebgpu.Keys - pending))
        decreases |pending|
      {
        Text.HasMember(pending);
        var h :| h in pending;
        var id := dawnToWebgpu[h];
        WrappersStep(dawnToWebgpu, dawnToWebgpu.Keys - pending, h);
        ReleaseStep(old(objects), WrappersOf(dawnToWebgpu, dawnToWebgpu.Keys - pending), id);
        objects := objects[id - 1 := Released(objects[id - 1])];
        pending := pending - {h};
      }
      ReleaseKeepsBuffers(old(objects), WrappersOf(dawnToWebgpu, dawnToWebgpu.Keys));
      dawnToWebgpu := map[];
    }

    /**
     * `wgpu_buffer_map_state` (lib/lib_webgpu_dawn.cpp:1871-1875).
     */
    function MapStateOf(id: WrapperId): (r: int)
      requires Valid() && IsKind(id, Buffer)
      reads this
      ensures r == MapStateMapped <==> IsMapped(StateOf(id))
    {
      ReportedMapState(StateOf(id))
    }

    /**
     * `wgpu_device_create_buffer` (lib/lib_webgpu_dawn.cpp:1185-1197):
     * stores the new Dawn buffer; mapped at creation means mapped for
     * writing.
     */
    method CreateBuffer(device: WrapperId, dawn: Handle, mappedAtCreation: bool) returns (id: WrapperId)
      requires Valid() && IsKind(device, Device)
      modifies this
      ensures Valid() && IsKind(id, Buffer) && id == |objects|
      ensures StateOf(id) == if mappedAtCreation then MappedForWriting else Unmapped
      ensures objects[..id - 1] == old(objects)
      ensures dawnToWebgpu == old(dawnToWebgpu)[dawn := id]
    {
      id := StoreAndSetParent(Buffer, dawn, device);
      if mappedAtCreation {
        objects := WithState(id, MappedForWriting);
      }
    }

    /**
     * `wgpu_buffer_map_async` (lib/lib_webgpu_dawn.cpp:1762-1790), up to
     * the request: an unmapped buffer becomes pending, any other buffer
     * is left alone.
     */
    method MapAsync(id: WrapperId, mode: bv32)
      requires Valid() && IsKind(id, Buffer)
      modifies this
      ensures Valid() && dawnToWebgpu == old(dawnToWebgpu) && IsKind(id, Buffer)
      ensures objects == if old(StateOf(id)) == Unmapped then old(WithState(id, Pending)) else old(objects)
    {
      if StateOf(id) != Unmapped {
        return;
      }
      objects := WithState(id, Pending);
    }

    /** The map callback (lib/lib_webgpu_dawn.cpp:1783-1789): mapped as the mode asks. */
    method MapCompleted(id: WrapperId, mode: bv32)
      requires Valid() && IsKind(id, Buffer)
      modifies this
      ensures Valid() && dawnToWebgpu == old(dawnToWebgpu) && IsKind(id, Buffer)
      ensures objects == old(WithState(id, CompletedState(mode)))
    {
      objects := WithState(id, CompletedState(mode));
    }

    /**
     * `wgpu_buffer_map_sync` (lib/lib_webgpu_dawn.cpp:1792-1824): like
     * `MapAsync`, then waits for the callback.
     */
    method MapSync(id: WrapperId, mode: bv32)
      requires Valid() && IsKind(id, Buffer)
      modifies this
      ensures Valid() && dawnToWebgpu == old(dawnToWebgpu) && IsKind(id, Buffer)
      ensures objects == if old(StateOf(id)) == Unmapped then old(WithState(id, CompletedState(mode))) else old(objects)
    {
      if StateOf(id) != Unmapped {
        return;
      }
      objects := WithState(id, Pending);
      MapCompleted(id, mode);
    }

    /**
     * `wgpu_buffer_get_mapped_range` (lib/lib_webgpu_dawn.cpp:1826-1838):
     * only for a mapped buffer; a size of -1 asks for the rest of the
     * buffer, and the range is writable only when mapped for writing.
     */
    method GetMappedRange(id: WrapperId, startOffset: int, size: int, bufferSize: int) returns (r: RangeRequest)
      requires Valid() && IsKind(id, Buffer) && IsMapped(StateOf(id))
      ensures r.writable <==> StateOf(id) == MappedForWriting
      ensures r.offset == startOffset
      ensures size == -1 ==> r.offset + r.size == bufferSize
      ensures size != -1 ==> r.size == size
    {
      var n := size;
      if size == -1 {
        n := bufferSize - startOffset;
      }
      r := RangeRequest(StateOf(id) == MappedForWriting, startOffset, n);
    }

    /**
     * `wgpu_buffer_unmap` (lib/lib_webgpu_dawn.cpp:1853-1859): only for a
     * mapped buffer, which becomes unmapped.
     */
    method Unmap(id: WrapperId)
      requires Valid() && IsKind(id, Buffer) && IsMapped(StateOf(id))
      modifies this
      ensures Valid() && dawnToWebgpu == old(dawnToWebgpu) && IsKind(id, Buffer)
      ensures objects == old(WithState(id, Unmapped))
    {
      objects := WithState(id, Unmapped);
    }
  }

  /** Releasing one more registered wrapper. */
  lemma ReleaseStep(objects: seq<Wrapper>, ids: set<WrapperId>, id: WrapperId)
    requires 1 <= id <= |objects|
    ensures ReleaseAll(objects, ids + {id}) ==
      ReleaseAll(objects, ids)[id - 1 := Released(ReleaseAll(objects, ids)[id - 1])]
  {
  }

  /** The wrappers that the keys `ks` of `m` point to. */
  function WrappersOf(m: map<Handle, WrapperId>, ks: set<Handle>): set<WrapperId>
  {
    set h | h in ks && h in m :: m[h]
  }

  lemma ReleaseNone(objects: seq<Wrapper>)
    ensures ReleaseAll(objects, {}) == objects
  {
  }

  /** Visiting one more key adds its wrapper to the visited wrappers. */
  lemma WrappersStep(m: map<Handle, WrapperId>, ks: set<Handle>, h: Handle)
    requires h in m
    ensures WrappersOf(m, ks + {h}) == WrappersOf(m, ks) + {m[h]}
  {
  }

  /** Releasing wrappers leaves no buffer wrapper without its state. */
  lemma ReleaseKeepsBuffers(objects: seq<Wrapper>, ids: set<WrapperId>)
    requires forall k | 0 <= k < |objects| :: objects[k].kind == Buffer ==> objects[k].BufferWrapper?
    ensures forall k | 0 <= k < |ReleaseAll(objects, ids)| ::
      ReleaseAll(objects, ids)[k].kind == Buffer ==> ReleaseAll(objects, ids)[k].BufferWrapper?
  {
  }

  /**
   * Storing the same Dawn object twice (lib/lib_webgpu_dawn.cpp:724):
   * the count stays 1 and both wrappers read as valid; destroying the
   * first one unregisters the Dawn object, so the second is no longer
   * valid either and the count drops to 0.
   */
  method StoreTwiceScenario(h: Handle) returns (count: nat, bothValid: bool, after: nat, secondValidAfter: bool)
    requires h != 0
    ensures count == 1 && bothValid
    ensures after == 0 && !secondValidAfter
  {
    var r := new Registry();
    var a := r.Store(Buffer, h);
    var b := r.Store(Texture, h);
    count := r.NumLiveObjects();
    bothValid := r.IsValidObject(a) && r.IsValidObject(b);
    r.Destroy(a);
    after := r.NumLiveObjects();
    secondValidAfter := r.IsValidObject(b);
  }

  /**
   * test/wgpu_is_valid_object.cpp: null is never valid; a stored canvas
   * context is valid until destroyed, and a second context does not
   * revive the first.
   */
  method IsValidObjectScenario(c1: Handle, c2: Handle) returns (nullValid: bool, v1: bool, v1Destroyed: bool, v2: bool, v1Later: bool)
    requires c1 != 0 && c2 != 0 && c1 != c2
    ensures !nullValid && v1 && !v1Destroyed && v2 && !v1Later
  {
    var r := new Registry();
    nullValid := r.IsValidObject(0);
    var ctx := r.Store(CanvasContext, c1);
    v1 := r.IsValidObject(ctx);
    r.Destroy(ctx);
    v1Destroyed := r.IsValidObject(ctx);
    var ctx2 := r.Store(CanvasContext, c2);
    v2 := r.IsValidObject(ctx2);
    v1Later := r.IsValidObject(ctx);
  }

  /**
   * test/wgpu_destroy_all_objects.cpp: three live objects (adapter,
   * device, queue); destroying all leaves none, and the device is no
   * longer valid.
   */
  method DestroyAllScenario(adapter: Handle, device: Handle, queue: Handle) returns (before: nat, deviceValid: bool, after: nat, deviceValidAfter: bool)
    requires adapter != 0 && device != 0 && queue != 0
    requires adapter != device && device != queue && adapter != queue
    ensures before == 3 && deviceValid
    ensures after == 0 && !deviceValidAfter
  {
    var r := new Registry();
    var a := r.Store(Adapter, adapter);
    assert device !in r.dawnToWebgpu;
    var d := r.Store(Device, device);
    assert queue !in r.dawnToWebgpu;
    var q := r.Store(Queue, queue);
    before := r.NumLiveObjects();
    assert before == 3;
    deviceValid := r.IsValidObject(d);
    r.DestroyAll();
    after := r.NumLiveObjects();
    deviceValidAfter := r.IsValidObject(d);
  }

  /** `WGPU_MAP_MODE_READ` and `WGPU_MAP_MODE_WRITE` (lib/lib_webgpu.h:580-581). */
  const MapModeRead: bv32 := 1
  const MapModeWrite: bv32 := 2

  /**
   * A buffer's life: created mapped (MAPPED, writable range), unmapped
   * (UNMAPPED), mapped for reading (PENDING; a second request is
   * ignored), mapped on completion (MAPPED, read-only range of the rest
   * of the buffer).
   */
  method BufferLifecycle(hDevice: Handle, hBuffer: Handle, size: int)
    returns (created: int, writable: bool, unmapped: int, pending: int, pendingAgain: int, mapped: int, range: RangeRequest)
    ensures created == MapStateMapped && writable
    ensures unmapped == MapStateUnmapped
    ensures pending == MapStatePending && pendingAgain == MapStatePending
    ensures mapped == MapStateMapped && !range.writable && range.offset == 0 && range.size == size
  {
    var r := new Registry();
    var device := r.Store(Device, hDevice);
    var buffer := r.CreateBuffer(device, hBuffer, true);
    created := r.MapStateOf(buffer);
    var first := r.GetMappedRange(buffer, 0, -1, size);
    writable := first.writable;
    r.Unmap(buffer);
    unmapped := r.MapStateOf(buffer);
    r.MapAsync(buffer, MapModeRead);
    pending := r.MapStateOf(buffer);
    r.MapAsync(buffer, MapModeWrite);
    pendingAgain := r.MapStateOf(buffer);
    r.MapCompleted(buffer, MapModeRead);
    mapped := r.MapStateOf(buffer);
    range := r.GetMappedRange(buffer, 0, -1, size);
  }
}

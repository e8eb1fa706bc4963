/** The framebuffer MMIO device (src/dev/framebuffer.h, src/dev/framebuffer.cpp):
    six 32-bit registers dispatched on the byte offset of an access, plus the
    "frame ready" flag a write to the vsync register raises for the display.
    The atomic flag is a plain boolean here and the frame-ready callback, an
    opaque host call, is not modelled. */
module Framebuffer {
  import opened Base

  /** `FramebufferRegs`. */
  datatype Regs = Regs(ctrl: u32, width: u32, height: u32, pitch: u32, fbPhys: u32, vsync: u32)

  /** The device state: the register file, the frame-ready flag, and whether a
      `Memory` was attached (all that `fb_ptr` asks of it). */
  datatype Device = Device(regs: Regs, frameReady: bool, hasMemory: bool, mmioBase: u64)

  const CTRL: u64 := 0x00
  const WIDTH: u64 := 0x04
  const HEIGHT: u64 := 0x08
  const PITCH: u64 := 0x0C
  const FB_PHYS: u64 := 0x10
  const VSYNC: u64 := 0x14

  /** The register offsets the device decodes. */
  predicate Known(offset: u64) {
    offset in {CTRL, WIDTH, HEIGHT, PITCH, FB_PHYS, VSYNC}
  }

  /** The constructor: the Octane default 1280x1024 mode at 4 bytes per pixel. */
  function Create(hasMemory: bool, mmioBase: u64): (d: Device)
    ensures Read32(d, CTRL) == 0 && Read32(d, VSYNC) == 0
    ensures Read32(d, WIDTH) == 1280 && Read32(d, HEIGHT) == 1024
    ensures Read32(d, PITCH) == Read32(d, WIDTH) * 4 == 5120
    ensures Read32(d, FB_PHYS) == 0x1000_0000
    ensures !d.frameReady && d.hasMemory == hasMemory
  {
    var width := 1280;
    Device(Regs(0, width, 1024, width * 4, 0x1000_0000, 0), false, hasMemory, mmioBase)
  }

  /** `mmio_read32`: the register at a known offset, 0 anywhere else. */
  function Read32(d: Device, offset: u64): (v: u32)
    ensures offset == CTRL ==> v == d.regs.ctrl
    ensures offset == WIDTH ==> v == d.regs.width
    ensures offset == HEIGHT ==> v == d.regs.height
    ensures offset == PITCH ==> v == d.regs.pitch
    ensures offset == FB_PHYS ==> v == d.regs.fbPhys
    ensures offset == VSYNC ==> v == d.regs.vsync
    ensures !Known(offset) ==> v == 0
  {
    match offset
    case 0x00 => d.regs.ctrl
    case 0x04 => d.regs.width
    case 0x08 => d.regs.height
    case 0x0C => d.regs.pitch
    case 0x10 => d.regs.fbPhys
    case 0x14 => d.regs.vsync
    case _ => 0
  }

  /** `mmio_write32`: stores into exactly the addressed register; a vsync write
      also raises the frame-ready flag; unknown offsets are ignored. */
  function Write32(d: Device, offset: u64, val: u32): (r: Device)
    // round trip at the written offset, no other register changes
    ensures Known(offset) ==> Read32(r, offset) == val
    ensures forall o: u64 :: o != offset ==> Read32(r, o) == Read32(d, o)
    // only a vsync write raises the flag, and nothing lowers it
    ensures r.frameReady == (d.frameReady || offset == VSYNC)
    ensures !Known(offset) ==> r == d
    ensures r.hasMemory == d.hasMemory && r.mmioBase == d.mmioBase
  {
    match offset
    case 0x00 => d.(regs := d.regs.(ctrl := val))
    case 0x04 => d.(regs := d.regs.(width := val))
    case 0x08 => d.(regs := d.regs.(height := val))
    case 0x0C => d.(regs := d.regs.(pitch := val))
    case 0x10 => d.(regs := d.regs.(fbPhys := val))
    case 0x14 => d.(regs := d.regs.(vsync := val), frameReady := true)
    case _ => d
  }

  /** `get_width`, `get_height`, `get_pitch`: the register file as the guest sees it. */
  function Width(d: Device): (w: u32)
    ensures w == Read32(d, WIDTH)
  {
    d.regs.width
  }

  function Height(d: Device): (h: u32)
    ensures h == Read32(d, HEIGHT)
  {
    d.regs.height
  }

  function Pitch(d: Device): (p: u32)
    ensures p == Read32(d, PITCH)
  {
    d.regs.pitch
  }

  /** A host pointer, or null. */
  datatype Pointer = Null | Host(addr: u64)

  /** What `fb_ptr` hands back: the pointer and the byte count in `out_size`. */
  datatype FbView = FbView(ptr: Pointer, size: nat)

  /** `Memory::host_ptr_for_phys(phys, size)`, which may answer null. */
  type HostMap = (u64, nat) -> Pointer

  /** `fb_ptr`.  Without a memory the size is 0 and the pointer null; otherwise
      the size is `pitch * height` computed in 64 bits (no overflow from two
      32-bit factors).  `host` is `None` in builds without
      `MEMORY_HAS_HOST_POINTER`, which return null, and otherwise the memory's
      mapping, whose answer for the framebuffer range is returned as it is. */
  function FbPtr(d: Device, host: Option<HostMap>): (v: FbView)
    ensures !d.hasMemory ==> v == FbView(Null, 0)
    ensures d.hasMemory ==> v.size == Pitch(d) * Height(d) && v.size < U64_MODULUS
    ensures d.hasMemory && host.None? ==> v.ptr == Null
    ensures d.hasMemory && host.Some? ==> v.ptr == host.value(Read32(d, FB_PHYS), Pitch(d) * Height(d))
  {
    if !d.hasMemory then FbView(Null, 0)
    else
      ProductOfU32Fits(d.regs.pitch, d.regs.height);
      var size := d.regs.pitch * d.regs.height;
      match host
      case None => FbView(Null, size)
      case Some(hostPtrForPhys) => FbView(hostPtrForPhys(d.regs.fbPhys, size), size)
  }

  // ----- properties ---------------------------------------------------------------

  /** Successive MMIO writes, as a guest would issue them. */
  function WriteAll(d: Device, writes: seq<(u64, u32)>): Device
    decreases |writes|
  {
    if |writes| == 0 then d else WriteAll(Write32(d, writes[0].0, writes[0].1), writes[1..])
  }

  /** After a run of writes the frame-ready flag is set exactly when it was set
      before or one of the writes hit the vsync register. */
  lemma {:induction false} FrameReadyIffVsyncWritten(d: Device, writes: seq<(u64, u32)>)
    ensures WriteAll(d, writes).frameReady <==>
      d.frameReady || exists k :: 0 <= k < |writes| && writes[k].0 == VSYNC
    decreases |writes|
  {
    if |writes| > 0 {
      FrameReadyIffVsyncWritten(Write32(d, writes[0].0, writes[0].1), writes[1..]);
      if WriteAll(d, writes).frameReady && !d.frameReady && writes[0].0 != VSYNC {
        var k :| 0 <= k < |writes[1..]| && writes[1..][k].0 == VSYNC;
        assert writes[k + 1].0 == VSYNC;
      }
      if exists k :: 0 <= k < |writes| && writes[k].0 == VSYNC {
        var k :| 0 <= k < |writes| && writes[k].0 == VSYNC;
        if k > 0 {
          assert writes[1..][k - 1].0 == VSYNC;
        }
      }
    }
  }

  /** A register no write addresses keeps its value through the whole run; in
      particular changing width or height never recomputes pitch. */
  lemma {:induction false} UntouchedRegisterKept(d: Device, writes: seq<(u64, u32)>, o: u64)
    requires forall k :: 0 <= k < |writes| ==> writes[k].0 != o
    ensures Read32(WriteAll(d, writes), o) == Read32(d, o)
    decreases |writes|
  {
    if |writes| > 0 {
      UntouchedRegisterKept(Write32(d, writes[0].0, writes[0].1), writes[1..], o);
    }
  }

  /** The display's geometry comes from the register file alone: two devices
      with equal registers report the same width, height, pitch and size. */
  lemma GeometryFromRegistersOnly(a: Device, b: Device, host: Option<HostMap>)
    requires a.regs == b.regs && a.hasMemory && b.hasMemory
    ensures Width(a) == Width(b) && Height(a) == Height(b) && Pitch(a) == Pitch(b)
    ensures FbPtr(a, host) == FbPtr(b, host)
  {
  }
}

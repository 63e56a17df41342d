/**
 * The GIGA ext4 wrapper (src/GIGAext4FS.cpp): the static physical-device
 * registry bd_list, the static mount-point registry mount_list, the lwext4
 * block-device callbacks that find a device through them, and the GIGAext4
 * lifecycle operations (scan, init, mount, unmount, clear).
 *
 * Calls into lwext4 and into the USB driver are not visible here; their
 * answers are parameters (MbrScan, PartDriver, the transfer status).
 * Every state-changing method is specified by a function on values
 * (RegState, GigaState); the lemmas at the end are about those functions.
 */
module Giga {
  import opened Wrappers
  import opened Errno
  import opened GigaTypes

  // ---------------------------------------------------------------------
  // Handles and the driver's answers
  // ---------------------------------------------------------------------

  /**
   * An lwext4 block-device pointer as the callbacks receive it: one of the
   * static instances ext4_blkdev_list[slot], the partbdev field of
   * mount_list[entry], or anything else.
   */
  datatype Handle = StaticBdev(slot: nat) | PartitionBdev(entry: nat) | ForeignBdev

  /** A partition handle names one of the four mount entries. */
  predicate ValidHandle(h: Handle)
  {
    h.PartitionBdev? ==> h.entry < MAX_MOUNT_POINTS
  }

  /** One partition slot of an MBR scan: absent, or its type byte and geometry. */
  datatype PartScan = Absent | Present(typeByte: Byte, bdev: PartBdev)

  /** The result of ext4_mbr_scan: a return code and four partition slots. */
  datatype MbrScan = MbrScan(code: int, parts: seq<PartScan>)

  predicate WellFormedScan(m: MbrScan)
  {
    |m.parts| == MAX_MOUNT_POINTS
  }

  /**
   * lwext4's answers for one partition: ext4_device_register, ext4_mount,
   * ext4_recover, ext4_mount_point_stats (code and volume name) and
   * ext4_umount.
   */
  datatype PartDriver = PartDriver(
    registerCode: int,
    mountCode: int,
    recoverCode: int,
    statsCode: int,
    volumeName: string,
    umountCode: int)

  /**
   * What a block-device callback does: return a code, index bd_list out of
   * bounds, or call through a null driver pointer.
   */
  datatype IoStatus = Status(code: int) | OutOfBounds | NullDeref

  // ---------------------------------------------------------------------
  // Values of the registries and of one GIGAext4 object
  // ---------------------------------------------------------------------

  /** bd_list (count entries) and mount_list (four entries). */
  datatype RegState = RegState(count: nat, bd: seq<BlockDevice>, ml: seq<MountEntry>)

  predicate WellFormed(s: RegState)
  {
    1 <= s.count <= 4 && |s.bd| == s.count && |s.ml| == MAX_MOUNT_POINTS
  }

  /** The fields of a GIGAext4 object the core uses: id and the volume label in stats. */
  datatype GigaState = GigaState(id: Byte, volume: string)

  datatype RegOutcome = RegOutcome(s: RegState, code: int)
  datatype GigaOutcome = GigaOutcome(s: RegState, g: GigaState, code: int)

  function InitialState(count: nat): RegState
  {
    RegState(count, seq(count, _ => DEFAULT_BLOCK_DEVICE), seq(MAX_MOUNT_POINTS, _ => DEFAULT_MOUNT_ENTRY))
  }

  // ---------------------------------------------------------------------
  // Looking a handle up
  // ---------------------------------------------------------------------

  /** get_bdev: the slot of a static block device, or -1. */
  function StaticIndex(s: RegState, h: Handle): int
  {
    if h.StaticBdev? && h.slot < s.count then h.slot else -1
  }

  /** get_device_index: the parent's dev_id stored in a partition's mount entry, or -1. */
  function PartitionIndex(s: RegState, h: Handle): int
    requires WellFormed(s) && ValidHandle(h)
  {
    if h.PartitionBdev? && s.ml[h.entry].parentBd.connected then s.ml[h.entry].parentBd.devId else -1
  }

  /** The index the callbacks use: get_bdev, falling back to get_device_index. */
  function ResolveIndex(s: RegState, h: Handle): (r: int)
    requires WellFormed(s) && ValidHandle(h)
    ensures h.StaticBdev? ==> r == if h.slot < s.count then h.slot as int else -1
    ensures h.PartitionBdev? ==>
      r == if s.ml[h.entry].parentBd.connected then s.ml[h.entry].parentBd.devId else -1
    ensures h.ForeignBdev? ==> r == -1
  {
    if StaticIndex(s, h) != -1 then StaticIndex(s, h) else PartitionIndex(s, h)
  }

  /** ext4_bd_open: only indices up to 2 are looked at, and the driver is used before it is tested. */
  function OpenStatus(s: RegState, h: Handle): (r: IoStatus)
    requires WellFormed(s) && ValidHandle(h)
    ensures r.Status? ==> r.code == EOK
    ensures r.Status? <==> ResolveIndex(s, h) > 2 || (0 <= ResolveIndex(s, h) < s.count && s.bd[ResolveIndex(s, h)].drive.Some?)
  {
    var i := ResolveIndex(s, h);
    if i > 2 then Status(EOK)
    else if i < 0 || i >= s.count then OutOfBounds
    else if s.bd[i].drive.None? then NullDeref
    else Status(EOK)
  }

  /** ext4_bd_bread: `transfer` is the driver's dataTransfer result, kept as an int. */
  function ReadStatus(s: RegState, h: Handle, transfer: int): (r: IoStatus)
    requires WellFormed(s) && ValidHandle(h)
    ensures r.Status? ==> r.code == EOK || r.code == EIO
    ensures r == Status(EOK) <==>
      (ResolveIndex(s, h) > 2 ||
       (0 <= ResolveIndex(s, h) < s.count && s.bd[ResolveIndex(s, h)].drive.Some? && transfer == EOK))
  {
    var i := ResolveIndex(s, h);
    if i > 2 then Status(EOK)
    else if i < 0 || i >= s.count then OutOfBounds
    else if s.bd[i].drive.None? then Status(EIO)
    else if transfer != EOK then Status(EIO)
    else Status(EOK)
  }

  /** ext4_bd_bwrite: the dataTransfer result is stored in a uint8_t before it is tested. */
  function WriteStatus(s: RegState, h: Handle, transfer: int): (r: IoStatus)
    requires WellFormed(s) && ValidHandle(h)
    ensures r.Status? ==> r.code == EOK || r.code == EIO
    ensures r == Status(EOK) <==>
      (ResolveIndex(s, h) > 2 ||
       (0 <= ResolveIndex(s, h) < s.count && s.bd[ResolveIndex(s, h)].drive.Some? && transfer % 256 == 0))
  {
    var i := ResolveIndex(s, h);
    if i > 2 then Status(EOK)
    else if i < 0 || i >= s.count then OutOfBounds
    else if s.bd[i].drive.None? then Status(EIO)
    else if transfer % 256 != 0 then Status(EIO)
    else Status(EOK)
  }

  // ---------------------------------------------------------------------
  // Clearing entries
  // ---------------------------------------------------------------------

  /** clr_BDL_entry's new record. */
  function ClearedDevice(b: BlockDevice): BlockDevice
  {
    b.(name := UNKNOWN_NAME, connected := false, pbdev := None, drive := None, devId := -1)
  }

  predicate IsClearedDevice(b: BlockDevice)
  {
    b.name == UNKNOWN_NAME && !b.connected && b.pbdev.None? && b.drive.None? && b.devId == -1
  }

  /** clr_ML_entry's new record: volName, partbdev and parent_bd are left as they were. */
  function ClearedEntry(e: MountEntry): MountEntry
  {
    e.(pname := UNKNOWN_NAME, pt := 0, available := false, mounted := false)
  }

  predicate IsClearedEntry(e: MountEntry)
  {
    e.pname == UNKNOWN_NAME && e.pt == 0 && !e.available && !e.mounted
  }

  /** clr_BDL_entry(dev): entries at or past the device count are refused. */
  function ClrBdl(s: RegState, dev: int): (r: RegState)
    requires WellFormed(s)
    ensures WellFormed(r) && r.count == s.count && r.ml == s.ml
  {
    if 0 <= dev < s.count then s.(bd := s.bd[dev := ClearedDevice(s.bd[dev])]) else s
  }

  /** clr_ML_entry(dev): guarded by the device count, not by the number of mount points. */
  function ClrMl(s: RegState, dev: int): (r: RegState)
    requires WellFormed(s)
    ensures WellFormed(r) && r.count == s.count && r.bd == s.bd
  {
    if 0 <= dev < s.count then s.(ml := s.ml[dev := ClearedEntry(s.ml[dev])]) else s
  }

  /** clr_ML_entry applied to the entries lo .. lo + n - 1. */
  function ClrMlSpan(s: RegState, lo: nat, n: nat): (r: RegState)
    requires WellFormed(s)
    ensures WellFormed(r) && r.count == s.count && r.bd == s.bd
  {
    s.(ml := seq(MAX_MOUNT_POINTS, j requires 0 <= j < MAX_MOUNT_POINTS =>
      if lo <= j < lo + n && j < s.count then ClearedEntry(s.ml[j]) else s.ml[j]))
  }

  /** clr_BD_List: every device record cleared. */
  function ClrBdAll(s: RegState): (r: RegState)
    requires WellFormed(s)
    ensures WellFormed(r) && r.ml == s.ml
    ensures forall j :: 0 <= j < r.count ==> IsClearedDevice(r.bd[j])
  {
    s.(bd := seq(s.count, j requires 0 <= j < s.count => ClearedDevice(s.bd[j])))
  }

  // ---------------------------------------------------------------------
  // Scanning, initialising, mounting
  // ---------------------------------------------------------------------

  /** What scan_mbr writes into mount entry i for partition slot p. */
  function ScanEntry(e: MountEntry, p: PartScan, i: nat): (r: MountEntry)
    requires i < MAX_MOUNT_POINTS
    ensures r.available <==> p.Present?
    ensures r.mounted == e.mounted && r.parentBd == e.parentBd && r.volName == e.volName
    ensures p.Absent? ==> r.pname == UNKNOWN_NAME && r.pt == e.pt && r.partbdev == e.partbdev
    ensures p.Present? ==> r.pt == p.typeByte && r.partbdev == p.bdev && r.pname == "/" + MountPointName(i) + "/"
  {
    match p
    case Absent => e.(pname := UNKNOWN_NAME, available := false)
    case Present(t, b) => e.(pt := t, available := true, pname := "/" + MP_NAME[i] + "/", partbdev := b)
  }

  /** scan_mbr: a failed scan leaves mount_list as it was and returns the scan's code. */
  function ScanMbrSpec(s: RegState, m: MbrScan): (o: RegOutcome)
    requires WellFormed(s) && WellFormedScan(m)
    ensures WellFormed(o.s) && o.s.count == s.count && o.s.bd == s.bd
    ensures o.code == m.code
  {
    if m.code != EOK then RegOutcome(s, m.code)
    else RegOutcome(s.(ml := seq(MAX_MOUNT_POINTS, i requires 0 <= i < MAX_MOUNT_POINTS =>
      ScanEntry(s.ml[i], m.parts[i], i))), EOK)
  }

  /** The record init_block_device writes for a newly connected drive in slot d. */
  function Attached(b: BlockDevice, drv: DriveRef, d: nat): (r: BlockDevice)
    ensures r.connected && r.drive == Some(drv) && r.devId == d && r.pbdev == Some(d) && r.name == DEVICE_NAME
    ensures r.(drive := b.drive, devId := b.devId, connected := b.connected, name := b.name, pbdev := b.pbdev) == b
  {
    b.(drive := Some(drv), devId := d, connected := true, name := DEVICE_NAME, pbdev := Some(d))
  }

  /** Every mount entry gets a copy of device record b as its parent. */
  function WithParent(s: RegState, b: BlockDevice): (r: RegState)
    requires WellFormed(s)
    ensures WellFormed(r) && r.count == s.count && r.bd == s.bd
  {
    s.(ml := seq(MAX_MOUNT_POINTS, i requires 0 <= i < MAX_MOUNT_POINTS => s.ml[i].(parentBd := b)))
  }

  /**
   * init_block_device(drv, dev), where `isConnected` is what the driver's
   * connected() answers and `m` what the MBR scan finds.
   */
  function InitBlockDeviceSpec(s: RegState, drv: DriveRef, dev: Byte, isConnected: bool, m: MbrScan): (o: RegOutcome)
    requires WellFormed(s) && WellFormedScan(m)
    ensures WellFormed(o.s) && o.s.count == s.count
  {
    var d := if dev >= 4 then 3 else dev;
    if !(d < s.count as int - 1) then RegOutcome(s, ENODEV)
    else if isConnected && s.bd[d].connected then RegOutcome(s, EOK)
    else if !isConnected && s.bd[d].connected then
      RegOutcome(ClrMlSpan(ClrBdl(s, d), 0, MAX_MOUNT_POINTS), ENODEV)
    else
      var s1 := if isConnected then s.(bd := s.bd[d := Attached(s.bd[d], drv, d)]) else s;
      var s2 := if s1.bd[d].connected then WithParent(s1, s1.bd[d]) else s1;
      ScanMbrSpec(s2, m)
  }

  /**
   * get_fs_type(device): `initCode` is device->init(); the result is -1, ENODEV
   * or the type byte of the first partition.
   */
  function GetFsTypeSpec(s: RegState, device: DriveRef, initCode: int, m: MbrScan): (o: RegOutcome)
    requires WellFormed(s) && WellFormedScan(m)
    ensures WellFormed(o.s) && o.s.count == s.count && o.s.ml == s.ml
    ensures o.code == -1 || o.code == ENODEV || 0 <= o.code < 256
  {
    if initCode != EOK then RegOutcome(s, -1)
    else
      var s1 := s.(bd := s.bd[0 := s.bd[0].(drive := Some(device), pbdev := Some(0))]);
      if m.code != EOK then RegOutcome(s1, -1)
      else if m.parts[0].Absent? then RegOutcome(s1, ENODEV)
      else RegOutcome(s1, m.parts[0].typeByte)
  }

  /** lwext_mount(dev): an unavailable entry is refused before lwext4 is asked. */
  function LwextMountSpec(s: RegState, dev: Byte, d: PartDriver): (o: RegOutcome)
    requires WellFormed(s) && dev < MAX_MOUNT_POINTS
    ensures WellFormed(o.s) && o.s.count == s.count && o.s.bd == s.bd
  {
    var down := s.(ml := s.ml[dev := s.ml[dev].(mounted := false)]);
    if !s.ml[dev].available then RegOutcome(down, ENXIO)
    else if d.registerCode != EOK then RegOutcome(down, d.registerCode)
    else if d.mountCode != EOK then RegOutcome(down, d.mountCode)
    else if d.recoverCode != EOK && d.recoverCode != ENOTSUP then RegOutcome(down, d.recoverCode)
    else RegOutcome(s.(ml := s.ml[dev := s.ml[dev].(mounted := true)]), EOK)
  }

  /** mount(device): only positive lwext_mount codes stop it; id is set before the stats are read. */
  function MountSpec(s: RegState, g: GigaState, device: Byte, d: PartDriver): (o: GigaOutcome)
    requires WellFormed(s) && device < MAX_MOUNT_POINTS
    ensures WellFormed(o.s) && o.s.count == s.count && o.s.bd == s.bd
    ensures forall j :: 0 <= j < MAX_MOUNT_POINTS && j != device ==> o.s.ml[j] == s.ml[j]
  {
    if !s.ml[device].available then GigaOutcome(s, g, ENODEV)
    else
      var lm := LwextMountSpec(s, device, d);
      if lm.code > 0 then GigaOutcome(lm.s, g, lm.code)
      else
        var g1 := g.(id := device);
        var ml := lm.s.ml;
        if d.statsCode != EOK then
          GigaOutcome(lm.s.(ml := ml[device := ml[device].(mounted := false)]), g1, d.statsCode)
        else
          GigaOutcome(lm.s.(ml := ml[device := ml[device].(volName := d.volumeName)]), g1.(volume := d.volumeName), EOK)
  }

  /** lwext_umount(dev): the unregister result is ignored. */
  function LwextUmountSpec(s: RegState, g: GigaState, dev: Byte, d: PartDriver): (o: GigaOutcome)
    requires WellFormed(s) && dev < MAX_MOUNT_POINTS
    ensures WellFormed(o.s) && o.s.count == s.count && o.s.bd == s.bd
  {
    if d.umountCode != EOK then GigaOutcome(s, g, d.umountCode)
    else GigaOutcome(s.(ml := s.ml[dev := s.ml[dev].(mounted := false)]), g.(volume := ""), EOK)
  }

  /** umountFS's loop from entry i on: the first failing unmount stops it with ENODEV. */
  function UmountFrom(s: RegState, g: GigaState, drivers: seq<PartDriver>, i: nat): (o: GigaOutcome)
    requires WellFormed(s) && |drivers| == MAX_MOUNT_POINTS && i <= MAX_MOUNT_POINTS
    ensures WellFormed(o.s) && o.s.count == s.count && o.s.bd == s.bd
    decreases MAX_MOUNT_POINTS - i
  {
    if i == MAX_MOUNT_POINTS then GigaOutcome(s, g, EOK)
    else if s.ml[i].pt == EXT4_TYPE && s.ml[i].mounted then
      var u := LwextUmountSpec(s, g, i, drivers[i]);
      if u.code != EOK then GigaOutcome(u.s, u.g, ENODEV)
      else UmountFrom(ClrMl(u.s, i), u.g, drivers, i + 1)
    else UmountFrom(s, g, drivers, i + 1)
  }

  /** umountFS: unmount every mounted ext4 partition, then clear device 0. */
  function UmountFsSpec(s: RegState, g: GigaState, drivers: seq<PartDriver>): (o: GigaOutcome)
    requires WellFormed(s) && |drivers| == MAX_MOUNT_POINTS
    ensures WellFormed(o.s) && o.s.count == s.count
  {
    var o := UmountFrom(s, g, drivers, 0);
    if o.code != EOK then o else GigaOutcome(ClrBdl(o.s, 0), o.g, EOK)
  }

  // ---------------------------------------------------------------------
  // lwext_stat
  // ---------------------------------------------------------------------

  const S_IFMT: bv32 := 0xF000
  const S_IFDIR: bv32 := 0x4000
  const S_IFREG: bv32 := 0x8000

  datatype StatBuf = StatBuf(mode: bv32, size: nat)
  datatype StatReply = StatReply(code: int, buf: Option<StatBuf>)

  /**
   * lwext_stat(filename): the root is a directory without asking lwext4;
   * otherwise a directory if ext4_dir_open succeeds, else a regular file of
   * `fileSize` bytes if ext4_fopen succeeds, else ext4_fopen's code.
   */
  function LwextStat(filename: string, dirOpenCode: int, fopenCode: int, fileSize: nat): (r: StatReply)
    ensures r.code == EOK <==> r.buf.Some?
    ensures r.code == EOK && r.buf.value.mode == S_IFREG <==>
              filename != "" && filename != "/" && dirOpenCode != EOK && fopenCode == EOK
    ensures r.code == EOK && r.buf.value.mode == S_IFREG ==> r.buf.value.size == fileSize
    ensures r.code == EOK && r.buf.value.mode != S_IFREG ==> r.buf == Some(StatBuf(S_IFDIR, 0))
    ensures r.code != EOK ==> r.code == fopenCode
  {
    if filename == "" || filename == "/" then StatReply(0, Some(StatBuf(S_IFDIR, 0)))
    else if dirOpenCode == 0 then StatReply(0, Some(StatBuf(S_IFDIR, 0)))
    else if fopenCode == 0 then StatReply(0, Some(StatBuf(S_IFREG, fileSize)))
    else StatReply(fopenCode, None)
  }

  // ---------------------------------------------------------------------
  // The registries
  // ---------------------------------------------------------------------

  /** bd_list and mount_list, shared by every GIGAext4 object. */
  class Registry {
    /** CONFIG_EXT4_BLOCKDEVS_COUNT */
    const count: nat
    const bdList: array<BlockDevice>
    const mountList: array<MountEntry>

    ghost predicate Valid()
    {
      1 <= count <= 4 && bdList.Length == count && mountList.Length == MAX_MOUNT_POINTS
    }

    ghost function State(): (s: RegState)
      requires Valid()
      reads bdList, mountList
      ensures WellFormed(s)
    {
      RegState(count, bdList[..], mountList[..])
    }

    /** The static arrays, holding the records' default values. */
    constructor (count: nat)
      requires 1 <= count <= 4
      ensures Valid() && this.count == count
      ensures fresh(bdList) && fresh(mountList)
      ensures State() == InitialState(count)
    {
      this.count := count;
      bdList := new BlockDevice[count](_ => DEFAULT_BLOCK_DEVICE);
      mountList := new MountEntry[MAX_MOUNT_POINTS](_ => DEFAULT_MOUNT_ENTRY);
    }

    /** init_device_id: every slot disconnected and numbered by its index. */
    method InitDeviceId()
      requires Valid()
      modifies bdList
      ensures forall i :: 0 <= i < count ==> bdList[i] == old(bdList[i]).(connected := false, devId := i)
    {
      for i := 0 to count
        invariant forall j :: 0 <= j < i ==> bdList[j] == old(bdList[j]).(connected := false, devId := j)
        invariant forall j :: i <= j < count ==> bdList[j] == old(bdList[j])
      {
        bdList[i] := bdList[i].(connected := false);
        bdList[i] := bdList[i].(devId := i);
      }
    }

    /** get_bdev: the slot whose static block device is h, or -1. */
    method GetBdev(h: Handle) returns (r: int)
      requires Valid()
      ensures -1 <= r < count
      ensures r >= 0 ==> h == StaticBdev(r)
      ensures r == -1 <==> !(h.StaticBdev? && h.slot < count)
    {
      r := -1;
      var index := 0;
      while index < count
        invariant 0 <= index <= count
        invariant forall k :: 0 <= k < index ==> h != StaticBdev(k)
      {
        if h == StaticBdev(index) {
          r := index;
          break;
        }
        index := index + 1;
      }
    }

    /**
     * get_device_index: for the partbdev of entry e, the dev_id of e's parent
     * copy when that copy says connected; -1 otherwise.
     */
    method GetDeviceIndex(h: Handle) returns (r: int)
      requires Valid() && ValidHandle(h)
      ensures h.PartitionBdev? && mountList[h.entry].parentBd.connected ==> r == mountList[h.entry].parentBd.devId
      ensures !(h.PartitionBdev? && mountList[h.entry].parentBd.connected) ==> r == -1
    {
      r := -1;
      var index := 0;
      while index < 16
        invariant 0 <= index <= 16
        invariant forall k :: 0 <= k < index ==> h != PartitionBdev(k)
      {
        if h == PartitionBdev(index) {
          if mountList[index].parentBd.connected {
            r := mountList[index].parentBd.devId;
          }
          break;
        }
        index := index + 1;
      }
    }

    /** ext4_bd_open. */
    method BdOpen(h: Handle) returns (st: IoStatus)
      requires Valid() && ValidHandle(h)
      ensures st == OpenStatus(State(), h)
    {
      var index := GetBdev(h);
      if index == -1 {
        index := GetDeviceIndex(h);
      }
      if index <= 2 {
        if index < 0 || index >= count {
          return OutOfBounds;
        }
        // get_read_size() and size() are called through pDrive before it is tested.
        if bdList[index].drive.None? {
          return NullDeref;
        }
        // The partition geometry written into the lwext4 block device is not modelled.
      }
      return Status(EOK);
    }

    /** ext4_bd_bread, where `transfer` is the driver's answer. */
    method BdRead(h: Handle, transfer: int) returns (st: IoStatus)
      requires Valid() && ValidHandle(h)
      ensures st == ReadStatus(State(), h, transfer)
    {
      var index := GetBdev(h);
      if index == -1 {
        index := GetDeviceIndex(h);
      }
      if index <= 2 {
        if index < 0 || index >= count {
          return OutOfBounds;
        }
        if bdList[index].drive.None? {
          return Status(EIO);
        }
        var status := transfer;
        if status != EOK {
          return Status(EIO);
        }
      }
      return Status(EOK);
    }

    /** ext4_bd_bwrite, where `transfer` is the driver's answer. */
    method BdWrite(h: Handle, transfer: int) returns (st: IoStatus)
      requires Valid() && ValidHandle(h)
      ensures st == WriteStatus(State(), h, transfer)
    {
      var index := GetBdev(h);
      if index == -1 {
        index := GetDeviceIndex(h);
      }
      if index <= 2 {
        if index < 0 || index >= count {
          return OutOfBounds;
        }
        if bdList[index].drive.None? {
          return Status(EIO);
        }
        var status: Byte := transfer % 256;
        if status != 0 {
          return Status(EIO);
        }
      }
      return Status(EOK);
    }
  }

  // ---------------------------------------------------------------------
  // GIGAext4
  // ---------------------------------------------------------------------

  class GigaExt4 {
    const reg: Registry
    var id: Byte
    /** stats.volume_name */
    var volumeLabel: string

    ghost function Own(): GigaState
      reads this
    {
      GigaState(id, volumeLabel)
    }

    constructor (reg: Registry)
      requires reg.Valid()
      ensures this.reg == reg && Own() == GigaState(0, "")
    {
      this.reg := reg;
      id := 0;
      volumeLabel := "";
    }

    /** clr_BDL_entry(dev). */
    method ClrBdlEntry(dev: Byte) returns (ok: bool)
      requires reg.Valid()
      modifies reg.bdList
      ensures ok == (dev < reg.count)
      ensures reg.State() == ClrBdl(old(reg.State()), dev)
    {
      if dev > reg.count as int - 1 {
        return false;
      }
      reg.bdList[dev] := reg.bdList[dev].(name := UNKNOWN_NAME);
      reg.bdList[dev] := reg.bdList[dev].(connected := false);
      reg.bdList[dev] := reg.bdList[dev].(pbdev := None);
      reg.bdList[dev] := reg.bdList[dev].(drive := None);
      reg.bdList[dev] := reg.bdList[dev].(devId := -1);
      return true;
    }

    /** clr_ML_entry(dev). */
    method ClrMlEntry(dev: Byte) returns (ok: bool)
      requires reg.Valid()
      modifies reg.mountList
      ensures ok == (dev < reg.count)
      ensures reg.State() == ClrMl(old(reg.State()), dev)
    {
      if dev > reg.count as int - 1 {
        return false;
      }
      reg.mountList[dev] := reg.mountList[dev].(pname := UNKNOWN_NAME);
      reg.mountList[dev] := reg.mountList[dev].(pt := 0);
      reg.mountList[dev] := reg.mountList[dev].(available := false);
      reg.mountList[dev] := reg.mountList[dev].(mounted := false);
      return true;
    }

    /** clr_BD_List. */
    method ClrBdList()
      requires reg.Valid()
      modifies reg.bdList
      ensures reg.State() == ClrBdAll(old(reg.State()))
    {
      for i := 0 to reg.count
        invariant reg.Valid()
        invariant reg.State() == old(reg.State()).(bd := seq(reg.count, j requires 0 <= j < reg.count =>
          if j < i then ClearedDevice(old(reg.bdList[j])) else old(reg.bdList[j])))
      {
        var _ := ClrBdlEntry(i);
      }
    }

    /** clr_Mount_List(dev): clears entries dev, dev + 1 and dev + 2. */
    method ClrMountList(dev: Byte) returns (ok: bool)
      requires reg.Valid()
      modifies reg.mountList
      ensures ok == (dev < reg.count)
      ensures reg.State() == if ok then ClrMlSpan(old(reg.State()), dev, MAX_MOUNT_POINTS - 1) else old(reg.State())
    {
      if dev > reg.count as int - 1 {
        return false;
      }
      for i := 0 to MAX_MOUNT_POINTS - 1
        invariant reg.Valid()
        invariant reg.State() == ClrMlSpan(old(reg.State()), dev, i)
      {
        ClrMlSpanStep(old(reg.State()), dev, i);
        var _ := ClrMlEntry(i + dev);
      }
      return true;
    }

    /** scan_mbr(dev). */
    method ScanMbr(dev: Byte, m: MbrScan) returns (r: int)
      requires reg.Valid() && dev < reg.count && WellFormedScan(m)
      modifies reg.mountList
      ensures RegOutcome(reg.State(), r) == ScanMbrSpec(old(reg.State()), m)
    {
      r := m.code;
      if r != EOK {
        return r;
      }
      for i := 0 to 4
        invariant reg.Valid()
        invariant reg.bdList[..] == old(reg.bdList[..])
        invariant forall j :: 0 <= j < 4 ==>
          reg.mountList[j] == if j < i then ScanEntry(old(reg.mountList[j]), m.parts[j], j) else old(reg.mountList[j])
      {
        if m.parts[i].Absent? {
          reg.mountList[i] := reg.mountList[i].(pname := UNKNOWN_NAME);
          reg.mountList[i] := reg.mountList[i].(available := false);
          continue;
        }
        reg.mountList[i] := reg.mountList[i].(pt := m.parts[i].typeByte);
        reg.mountList[i] := reg.mountList[i].(available := true);
        reg.mountList[i] := reg.mountList[i].(pname := "/" + MP_NAME[i] + "/");
        reg.mountList[i] := reg.mountList[i].(partbdev := m.parts[i].bdev);
      }
      assert reg.mountList[..] == ScanMbrSpec(old(reg.State()), m).s.ml;
      return r;
    }

    /** init_block_device(drv, dev); the driver's init() result is ignored. */
    method InitBlockDevice(drv: DriveRef, dev: Byte, isConnected: bool, m: MbrScan) returns (r: int)
      requires reg.Valid() && WellFormedScan(m)
      modifies reg.bdList, reg.mountList
      ensures RegOutcome(reg.State(), r) == InitBlockDeviceSpec(old(reg.State()), drv, dev, isConnected, m)
    {
      var d := dev;
      if d >= 4 {
        d := 3;
      }
      if d < reg.count as int - 1 {
        if isConnected && reg.bdList[d].connected {
          return EOK;
        } else if isConnected && !reg.bdList[d].connected {
          reg.bdList[d] := reg.bdList[d].(drive := Some(drv));
          reg.bdList[d] := reg.bdList[d].(devId := d);
          reg.bdList[d] := reg.bdList[d].(connected := true);
          reg.bdList[d] := reg.bdList[d].(name := DEVICE_NAME);
          reg.bdList[d] := reg.bdList[d].(pbdev := Some(d));
        } else if !isConnected && reg.bdList[d].connected {
          Detach(d);
          return ENODEV;
        }
      } else {
        return ENODEV;
      }
      if reg.bdList[d].connected {
        LinkParents(d);
      }
      r := ScanMbr(d, m);
    }

    /** init_block_device's disconnect branch: clr_BDL_entry(d), then clr_ML_entry for every mount point. */
    method Detach(d: Byte)
      requires reg.Valid() && d < reg.count
      modifies reg.bdList, reg.mountList
      ensures reg.State() == ClrMlSpan(ClrBdl(old(reg.State()), d), 0, MAX_MOUNT_POINTS)
    {
      var _ := ClrBdlEntry(d);
      ghost var s1 := reg.State();
      for i := 0 to 4
        invariant reg.Valid()
        invariant reg.State() == ClrMlSpan(s1, 0, i)
      {
        ClrMlSpanStep(s1, 0, i);
        var _ := ClrMlEntry(i);
      }
    }

    /** init_block_device's loop making device d the parent of every mount entry. */
    method LinkParents(d: Byte)
      requires reg.Valid() && d < reg.count
      modifies reg.mountList
      ensures reg.State() == WithParent(old(reg.State()), old(reg.State()).bd[d])
    {
      ghost var s1 := reg.State();
      for i := 0 to 4
        invariant reg.Valid()
        invariant reg.bdList[..] == s1.bd
        invariant forall j :: 0 <= j < 4 ==>
          reg.mountList[j] == if j < i then s1.ml[j].(parentBd := s1.bd[d]) else s1.ml[j]
      {
        reg.mountList[i] := reg.mountList[i].(parentBd := reg.bdList[d]);
      }
      assert reg.State() == WithParent(s1, s1.bd[d]);
    }

    /** get_fs_type(device), where `initCode` is device->init(). */
    method GetFsType(device: DriveRef, initCode: int, m: MbrScan) returns (r: int)
      requires reg.Valid() && WellFormedScan(m)
      modifies reg.bdList
      ensures RegOutcome(reg.State(), r) == GetFsTypeSpec(old(reg.State()), device, initCode, m)
    {
      r := initCode;
      if r != EOK {
        return -1;
      }
      reg.bdList[0] := reg.bdList[0].(drive := Some(device));
      reg.bdList[0] := reg.bdList[0].(pbdev := Some(0));
      r := m.code;
      if r != EOK {
        return -1;
      }
      if m.parts[0].Absent? {
        return ENODEV;
      }
      return m.parts[0].typeByte;
    }

    /** lwext_mount(dev). */
    method LwextMount(dev: Byte, d: PartDriver) returns (r: int)
      requires reg.Valid() && dev < MAX_MOUNT_POINTS
      modifies reg.mountList
      ensures RegOutcome(reg.State(), r) == LwextMountSpec(old(reg.State()), dev, d)
    {
      reg.mountList[dev] := reg.mountList[dev].(mounted := false);
      if !reg.mountList[dev].available {
        return ENXIO;
      }
      r := d.registerCode;
      if r != EOK {
        return r;
      }
      r := d.mountCode;
      if r != EOK {
        // ext4_device_unregister is called; its result is ignored.
        return r;
      }
      r := d.recoverCode;
      if r != EOK && r != ENOTSUP {
        return r;
      }
      reg.mountList[dev] := reg.mountList[dev].(mounted := true);
      return EOK;
    }

    /** mount(device). */
    method Mount(device: Byte, d: PartDriver) returns (r: int)
      requires reg.Valid() && device < MAX_MOUNT_POINTS
      modifies this, reg.mountList
      ensures GigaOutcome(reg.State(), Own(), r) == MountSpec(old(reg.State()), old(Own()), device, d)
    {
      if !reg.mountList[device].available {
        return ENODEV;
      }
      r := LwextMount(device, d);
      if r > 0 {
        return r;
      }
      id := device;
      r := d.statsCode;
      if r != EOK {
        reg.mountList[device] := reg.mountList[device].(mounted := false);
        return r;
      }
      volumeLabel := d.volumeName;
      reg.mountList[device] := reg.mountList[device].(volName := volumeLabel);
      return EOK;
    }

    /** lwext_umount(dev). */
    method LwextUmount(dev: Byte, d: PartDriver) returns (r: int)
      requires reg.Valid() && dev < MAX_MOUNT_POINTS
      modifies this, reg.mountList
      ensures GigaOutcome(reg.State(), Own(), r) == LwextUmountSpec(old(reg.State()), old(Own()), dev, d)
    {
      r := d.umountCode;
      if r != EOK {
        return r;
      }
      reg.mountList[dev] := reg.mountList[dev].(mounted := false);
      volumeLabel := "";
      return EOK;
    }

    /** umountFS: `drivers[i]` answers for partition i. */
    method UmountFS(drivers: seq<PartDriver>) returns (r: int)
      requires reg.Valid() && |drivers| == MAX_MOUNT_POINTS
      modifies this, reg.bdList, reg.mountList
      ensures GigaOutcome(reg.State(), Own(), r) == UmountFsSpec(old(reg.State()), old(Own()), drivers)
    {
      ghost var goal := UmountFrom(old(reg.State()), old(Own()), drivers, 0);
      for i := 0 to 4
        invariant reg.Valid()
        invariant UmountFrom(reg.State(), Own(), drivers, i) == goal
      {
        if reg.mountList[i].pt == EXT4_TYPE && reg.mountList[i].mounted {
          var u := LwextUmount(i, drivers[i]);
          if u != EOK {
            return ENODEV;
          }
          var _ := ClrMlEntry(i);
        }
      }
      var _ := ClrBdlEntry(0);
      return EOK;
    }
  }

  // ---------------------------------------------------------------------
  // Properties of the callbacks
  // ---------------------------------------------------------------------

  /**
   * ext4_bd_open never reports EIO: its null test comes after the driver
   * has been used, so a null driver is a null dereference instead.
   */
  lemma OpenNeverReportsIo(s: RegState, h: Handle)
    requires WellFormed(s) && ValidHandle(h)
    ensures OpenStatus(s, h) != Status(EIO)
    ensures OpenStatus(s, h) == NullDeref <==>
              0 <= ResolveIndex(s, h) <= 2 && ResolveIndex(s, h) < s.count && s.bd[ResolveIndex(s, h)].drive.None?
    ensures OpenStatus(s, h) == OutOfBounds <==>
              ResolveIndex(s, h) < 0 || (ResolveIndex(s, h) <= 2 && ResolveIndex(s, h) >= s.count)
  {
  }

  /** A handle that is neither a static device nor a partition resolves to -1, which bd_list cannot hold. */
  lemma ForeignHandleOutOfBounds(s: RegState, t: int)
    requires WellFormed(s)
    ensures ResolveIndex(s, ForeignBdev) == -1
    ensures OpenStatus(s, ForeignBdev) == OutOfBounds
    ensures ReadStatus(s, ForeignBdev, t) == OutOfBounds && WriteStatus(s, ForeignBdev, t) == OutOfBounds
  {
  }

  /**
   * Reads and writes agree on every driver status that fits a byte; a
   * write also succeeds for any status that is a multiple of 256.
   */
  lemma ReadWriteAgree(s: RegState, h: Handle, t: int)
    requires WellFormed(s) && ValidHandle(h)
    ensures 0 <= t < 256 ==> ReadStatus(s, h, t) == WriteStatus(s, h, t)
    ensures t == 256 && 0 <= ResolveIndex(s, h) <= 2 && ResolveIndex(s, h) < s.count
              && s.bd[ResolveIndex(s, h)].drive.Some? ==>
              ReadStatus(s, h, t) == Status(EIO) && WriteStatus(s, h, t) == Status(EOK)
  {
  }

  // ---------------------------------------------------------------------
  // Properties of clearing
  // ---------------------------------------------------------------------

  /** Clearing an entry twice is clearing it once; entries at or past the device count are refused. */
  lemma ClearIdempotent(s: RegState, dev: int)
    requires WellFormed(s)
    ensures WellFormed(ClrBdl(s, dev)) && WellFormed(ClrMl(s, dev))
    ensures ClrBdl(ClrBdl(s, dev), dev) == ClrBdl(s, dev)
    ensures ClrMl(ClrMl(s, dev), dev) == ClrMl(s, dev)
    ensures 0 <= dev < s.count ==> IsClearedDevice(ClrBdl(s, dev).bd[dev]) && IsClearedEntry(ClrMl(s, dev).ml[dev])
    ensures 0 <= dev < s.count ==>
      var e := ClrMl(s, dev).ml[dev];
      e.volName == s.ml[dev].volName && e.partbdev == s.ml[dev].partbdev && e.parentBd == s.ml[dev].parentBd
    ensures forall j :: 0 <= j < s.count && j != dev ==> ClrBdl(s, dev).bd[j] == s.bd[j]
    ensures forall j :: 0 <= j < MAX_MOUNT_POINTS && j != dev ==> ClrMl(s, dev).ml[j] == s.ml[j]
    ensures !(0 <= dev < s.count) ==> ClrBdl(s, dev) == s && ClrMl(s, dev) == s
  {
  }

  /** clr_Mount_List(0) on a full device table clears entries 0-2 and never reaches entry 3. */
  lemma ClrMountListSkipsLast(s: RegState)
    requires WellFormed(s) && s.count == 4
    ensures var t := ClrMlSpan(s, 0, MAX_MOUNT_POINTS - 1);
      (forall j :: 0 <= j < 3 ==> IsClearedEntry(t.ml[j])) && t.ml[3] == s.ml[3]
  {
  }

  // ---------------------------------------------------------------------
  // Properties of scanning and initialisation
  // ---------------------------------------------------------------------

  /**
   * After a successful scan an entry is available exactly when its
   * partition slot is present; it then carries the slot's type byte and
   * the name "/sdaN/". Mount flags and parent copies are not touched.
   */
  lemma ScanAvailability(s: RegState, m: MbrScan, i: nat)
    requires WellFormed(s) && WellFormedScan(m) && m.code == EOK && i < MAX_MOUNT_POINTS
    ensures var e := ScanMbrSpec(s, m).s.ml[i];
      (e.available <==> m.parts[i].Present?) &&
      (m.parts[i].Present? ==> e.pt == m.parts[i].typeByte && e.pname == "/" + MountPointName(i) + "/" && e.partbdev == m.parts[i].bdev) &&
      (m.parts[i].Absent? ==> e.pname == UNKNOWN_NAME && e.pt == s.ml[i].pt) &&
      e.mounted == s.ml[i].mounted && e.parentBd == s.ml[i].parentBd
    ensures ScanMbrSpec(s, m).code == EOK && ScanMbrSpec(s, m).s.bd == s.bd
  {
  }

  /** A failed scan changes nothing and returns the scan's code. */
  lemma ScanFailureKeeps(s: RegState, m: MbrScan)
    requires WellFormed(s) && WellFormedScan(m) && m.code != EOK
    ensures ScanMbrSpec(s, m) == RegOutcome(s, m.code)
  {
  }

  /** init_block_device on a slot that is already connected and still present changes nothing. */
  lemma ReconnectIsNoOp(s: RegState, drv: DriveRef, dev: Byte, m: MbrScan)
    requires WellFormed(s) && WellFormedScan(m) && dev < s.count - 1 && s.bd[dev].connected
    ensures InitBlockDeviceSpec(s, drv, dev, true, m) == RegOutcome(s, EOK)
  {
  }

  /** Slots at or past count - 1, and any dev clamped to 3, are refused with ENODEV and nothing changes. */
  lemma InitRefusesHighSlots(s: RegState, drv: DriveRef, dev: Byte, c: bool, m: MbrScan)
    requires WellFormed(s) && WellFormedScan(m) && (dev >= s.count - 1 || dev >= 3)
    ensures InitBlockDeviceSpec(s, drv, dev, c, m) == RegOutcome(s, ENODEV)
  {
  }

  /**
   * Attaching a newly connected drive: the slot records the drive, every
   * mount entry's parent copy is the new record, and after a successful
   * scan each partition handle resolves to the drive's slot.
   */
  lemma AttachRoutesPartitions(s: RegState, drv: DriveRef, dev: Byte, m: MbrScan, e: nat, t: int)
    requires WellFormed(s) && WellFormedScan(m) && dev < s.count - 1 && !s.bd[dev].connected
    requires m.code == EOK && e < MAX_MOUNT_POINTS
    ensures var o := InitBlockDeviceSpec(s, drv, dev, true, m);
      o.code == EOK && WellFormed(o.s) &&
      o.s.bd[dev].drive == Some(drv) && o.s.bd[dev].connected && o.s.bd[dev].devId == dev &&
      o.s.ml[e].parentBd == o.s.bd[dev] &&
      (o.s.ml[e].available <==> m.parts[e].Present?) &&
      ResolveIndex(o.s, PartitionBdev(e)) == dev &&
      ReadStatus(o.s, PartitionBdev(e), t) == (if t == EOK then Status(EOK) else Status(EIO))
  {
  }

  /**
   * A drive that has gone away: the slot is cleared, entries below the
   * device count are cleared, entries at or past it are left as they were,
   * and no parent copy is touched. The result is ENODEV.
   */
  lemma DisconnectClears(s: RegState, drv: DriveRef, dev: Byte, m: MbrScan)
    requires WellFormed(s) && WellFormedScan(m) && dev < s.count - 1 && s.bd[dev].connected
    ensures var o := InitBlockDeviceSpec(s, drv, dev, false, m);
      o.code == ENODEV && WellFormed(o.s) &&
      IsClearedDevice(o.s.bd[dev]) &&
      (forall k :: 0 <= k < s.count && k != dev ==> o.s.bd[k] == s.bd[k]) &&
      (forall j :: 0 <= j < MAX_MOUNT_POINTS ==>
         o.s.ml[j].parentBd == s.ml[j].parentBd &&
         (j < s.count ==> IsClearedEntry(o.s.ml[j])) &&
         (j >= s.count ==> o.s.ml[j] == s.ml[j]))
  {
  }

  /**
   * After a forced removal the device slot has a null driver: opening it
   * dereferences null and reading it fails with EIO. A partition whose
   * stale parent copy still names the slot is routed to it as well.
   */
  lemma IoAfterRemoval(s: RegState, drv: DriveRef, dev: Byte, m: MbrScan, e: nat, t: int)
    requires WellFormed(s) && WellFormedScan(m) && dev < s.count - 1 && s.bd[dev].connected
    requires e < MAX_MOUNT_POINTS && s.ml[e].parentBd.connected && s.ml[e].parentBd.devId == dev
    ensures var o := InitBlockDeviceSpec(s, drv, dev, false, m);
      OpenStatus(o.s, StaticBdev(dev)) == NullDeref &&
      ReadStatus(o.s, StaticBdev(dev), t) == Status(EIO) &&
      ReadStatus(o.s, PartitionBdev(e), t) == Status(EIO) &&
      WriteStatus(o.s, PartitionBdev(e), t) == Status(EIO)
  {
    DisconnectClears(s, drv, dev, m);
  }

  /**
   * get_fs_type answers ENODEV both when partition 0 is missing and when
   * its type byte happens to be 19, the value of ENODEV.
   */
  lemma FsTypeAmbiguous(s: RegState, device: DriveRef, b: PartBdev)
    requires WellFormed(s)
    ensures var absent := MbrScan(EOK, [Absent, Absent, Absent, Absent]);
      var typed := MbrScan(EOK, [Present(ENODEV, b), Absent, Absent, Absent]);
      GetFsTypeSpec(s, device, EOK, absent).code == GetFsTypeSpec(s, device, EOK, typed).code == ENODEV
  {
  }

  /** get_fs_type reports ext4 only when the drive and the scan succeed and partition 0 has type 0x83. */
  lemma FsTypeExt4(s: RegState, device: DriveRef, initCode: int, m: MbrScan)
    requires WellFormed(s) && WellFormedScan(m)
    ensures var o := GetFsTypeSpec(s, device, initCode, m);
      (o.code == EXT4_TYPE <==> initCode == EOK && m.code == EOK && m.parts[0].Present? && m.parts[0].typeByte == EXT4_TYPE) &&
      (initCode == EOK ==> o.s.bd[0].drive == Some(device) && o.s.bd[0].connected == s.bd[0].connected) &&
      (initCode != EOK ==> o == RegOutcome(s, -1))
  {
  }

  // ---------------------------------------------------------------------
  // Mounting and unmounting
  // ---------------------------------------------------------------------

  /** An entry is only mounted when it is available. */
  ghost predicate MountedImpliesAvailable(s: RegState)
  {
    forall j :: 0 <= j < |s.ml| ==> s.ml[j].mounted ==> s.ml[j].available
  }

  /** lwext4's error codes are positive errno values. */
  predicate PositiveErrors(d: PartDriver)
  {
    d.registerCode >= 0 && d.mountCode >= 0 && d.recoverCode >= 0
  }

  /**
   * lwext_mount leaves the entry mounted exactly when it returns EOK, which
   * it does exactly when the entry is available, registering and mounting
   * succeed and recovery succeeds or is unsupported. No other entry changes.
   */
  lemma LwextMountIff(s: RegState, dev: Byte, d: PartDriver)
    requires WellFormed(s) && dev < MAX_MOUNT_POINTS
    ensures var o := LwextMountSpec(s, dev, d);
      WellFormed(o.s) && o.s.bd == s.bd &&
      (o.s.ml[dev].mounted <==> o.code == EOK) &&
      (o.code == EOK <==> s.ml[dev].available && d.registerCode == EOK && d.mountCode == EOK &&
                          (d.recoverCode == EOK || d.recoverCode == ENOTSUP)) &&
      o.s.ml[dev] == s.ml[dev].(mounted := o.s.ml[dev].mounted) &&
      (forall j :: 0 <= j < MAX_MOUNT_POINTS && j != dev ==> o.s.ml[j] == s.ml[j])
  {
  }

  /**
   * mount returns EOK exactly when the entry ends up mounted, given
   * positive driver errors; the volume name then reaches both the entry and
   * the object's label.
   */
  lemma MountIff(s: RegState, g: GigaState, device: Byte, d: PartDriver)
    requires WellFormed(s) && device < MAX_MOUNT_POINTS && MountedImpliesAvailable(s) && PositiveErrors(d)
    ensures var o := MountSpec(s, g, device, d);
      WellFormed(o.s) && o.s.bd == s.bd &&
      (o.code == EOK <==> o.s.ml[device].mounted) &&
      (o.code == EOK <==> s.ml[device].available && d.registerCode == EOK && d.mountCode == EOK &&
                          (d.recoverCode == EOK || d.recoverCode == ENOTSUP) && d.statsCode == EOK) &&
      (o.code == EOK ==> o.s.ml[device].volName == o.g.volume == d.volumeName && o.g.id == device) &&
      (forall j :: 0 <= j < MAX_MOUNT_POINTS && j != device ==> o.s.ml[j] == s.ml[j])
  {
  }

  /** With a negative register code, mount reports success on an entry it left unmounted. */
  lemma MountNegativeCodeReportsSuccess(s: RegState, g: GigaState, device: Byte, name: string)
    requires WellFormed(s) && device < MAX_MOUNT_POINTS && s.ml[device].available
    ensures var o := MountSpec(s, g, device, PartDriver(-1, EOK, EOK, EOK, name, EOK));
      o.code == EOK && !o.s.ml[device].mounted
  {
  }

  /**
   * Mounting and then unmounting an available entry returns it to its
   * state before, apart from the volume name it learned, and leaves the
   * label empty.
   */
  lemma MountUmountRoundTrip(s: RegState, g: GigaState, dev: Byte, d: PartDriver)
    requires WellFormed(s) && dev < MAX_MOUNT_POINTS && s.ml[dev].available && !s.ml[dev].mounted
    requires d.registerCode == EOK && d.mountCode == EOK && d.recoverCode == EOK && d.statsCode == EOK
    requires d.umountCode == EOK
    ensures var o1 := MountSpec(s, g, dev, d);
      o1.code == EOK && WellFormed(o1.s) &&
      var o2 := LwextUmountSpec(o1.s, o1.g, dev, d);
      o2.code == EOK &&
      o2.s == s.(ml := s.ml[dev := s.ml[dev].(volName := d.volumeName)]) &&
      o2.g == GigaState(dev, "")
  {
    var o1 := MountSpec(s, g, dev, d);
    var o2 := LwextUmountSpec(o1.s, o1.g, dev, d);
    assert o2.s.ml == s.ml[dev := s.ml[dev].(volName := d.volumeName)];
  }

  /** Every operation that mounts or clears keeps mounted entries available. */
  lemma MountOpsKeepInvariant(s: RegState, g: GigaState, dev: Byte, d: PartDriver, k: int)
    requires WellFormed(s) && dev < MAX_MOUNT_POINTS && MountedImpliesAvailable(s)
    ensures MountedImpliesAvailable(LwextMountSpec(s, dev, d).s)
    ensures MountedImpliesAvailable(MountSpec(s, g, dev, d).s)
    ensures MountedImpliesAvailable(LwextUmountSpec(s, g, dev, d).s)
    ensures MountedImpliesAvailable(ClrMl(s, k)) && MountedImpliesAvailable(ClrBdl(s, k))
  {
  }

  /** A scan keeps mounted entries available when every mounted entry's partition is still present. */
  lemma ScanKeepsInvariant(s: RegState, m: MbrScan)
    requires WellFormed(s) && WellFormedScan(m) && MountedImpliesAvailable(s)
    requires forall j :: 0 <= j < MAX_MOUNT_POINTS && s.ml[j].mounted ==> m.parts[j].Present?
    ensures MountedImpliesAvailable(ScanMbrSpec(s, m).s)
  {
  }

  /** A rescan that no longer finds a mounted partition leaves its entry mounted but unavailable. */
  lemma ScanStrandsMountedEntry(s: RegState, m: MbrScan)
    requires WellFormed(s) && WellFormedScan(m) && m.code == EOK && s.ml[0].mounted && m.parts[0].Absent?
    ensures !MountedImpliesAvailable(ScanMbrSpec(s, m).s)
  {
    assert ScanMbrSpec(s, m).s.ml[0].mounted;
  }

  /** What umountFS leaves in entry j: mounted ext4 entries are unmounted and cleared where the guard allows. */
  function Unmounted(s: RegState, j: nat): MountEntry
    requires WellFormed(s) && j < MAX_MOUNT_POINTS
  {
    var e := s.ml[j];
    if e.pt == EXT4_TYPE && e.mounted then
      (if j < s.count then ClearedEntry(e) else e.(mounted := false))
    else e
  }

  /** The entries from i on that umountFS has to unmount can all be unmounted. */
  ghost predicate AllUnmountFrom(s: RegState, drivers: seq<PartDriver>, i: nat)
    requires WellFormed(s) && |drivers| == MAX_MOUNT_POINTS
  {
    forall j :: i <= j < MAX_MOUNT_POINTS && s.ml[j].pt == EXT4_TYPE && s.ml[j].mounted ==> drivers[j].umountCode == EOK
  }

  /**
   * The first entry from i on at which umountFS stops: a mounted ext4
   * entry whose unmount fails, or MAX_MOUNT_POINTS when there is none.
   */
  function FirstFailure(s: RegState, drivers: seq<PartDriver>, i: nat): (f: nat)
    requires WellFormed(s) && |drivers| == MAX_MOUNT_POINTS && i <= MAX_MOUNT_POINTS
    decreases MAX_MOUNT_POINTS - i
    ensures i <= f <= MAX_MOUNT_POINTS
    ensures forall j :: i <= j < f ==> !(s.ml[j].pt == EXT4_TYPE && s.ml[j].mounted && drivers[j].umountCode != EOK)
    ensures f < MAX_MOUNT_POINTS ==> s.ml[f].pt == EXT4_TYPE && s.ml[f].mounted && drivers[f].umountCode != EOK
  {
    if i == MAX_MOUNT_POINTS then MAX_MOUNT_POINTS
    else if s.ml[i].pt == EXT4_TYPE && s.ml[i].mounted && drivers[i].umountCode != EOK then i
    else FirstFailure(s, drivers, i + 1)
  }

  /** Unmounting one mounted ext4 entry and clearing it leaves Unmounted's entry there and no other change. */
  lemma UnmountOne(s: RegState, g: GigaState, d: PartDriver, i: nat)
    requires WellFormed(s) && i < MAX_MOUNT_POINTS && s.ml[i].pt == EXT4_TYPE && s.ml[i].mounted
    requires d.umountCode == EOK
    ensures var s1 := ClrMl(LwextUmountSpec(s, g, i, d).s, i);
      s1.count == s.count && s1.ml[i] == Unmounted(s, i) &&
      forall j :: 0 <= j < MAX_MOUNT_POINTS && j != i ==> s1.ml[j] == s.ml[j]
  {
  }

  /** The loop from entry i on fails, with ENODEV, exactly when a mounted ext4 entry will not unmount. */
  lemma {:induction false} UmountFromCode(s: RegState, g: GigaState, drivers: seq<PartDriver>, i: nat)
    requires WellFormed(s) && |drivers| == MAX_MOUNT_POINTS && i <= MAX_MOUNT_POINTS
    decreases MAX_MOUNT_POINTS - i
    ensures var o := UmountFrom(s, g, drivers, i);
      (o.code == EOK || o.code == ENODEV) && (o.code == EOK <==> AllUnmountFrom(s, drivers, i))
  {
    if i == MAX_MOUNT_POINTS {
    } else if s.ml[i].pt == EXT4_TYPE && s.ml[i].mounted {
      var u := LwextUmountSpec(s, g, i, drivers[i]);
      if u.code == EOK {
        var s1 := ClrMl(u.s, i);
        UnmountOne(s, g, drivers[i], i);
        UmountFromCode(s1, u.g, drivers, i + 1);
        assert AllUnmountFrom(s1, drivers, i + 1) <==> AllUnmountFrom(s, drivers, i);
      }
    } else {
      UmountFromCode(s, g, drivers, i + 1);
      assert AllUnmountFrom(s, drivers, i + 1) <==> AllUnmountFrom(s, drivers, i);
    }
  }

  /** The loop from entry i on leaves the entries before i alone. */
  lemma {:induction false} UmountFromPrefix(s: RegState, g: GigaState, drivers: seq<PartDriver>, i: nat)
    requires WellFormed(s) && |drivers| == MAX_MOUNT_POINTS && i <= MAX_MOUNT_POINTS
    decreases MAX_MOUNT_POINTS - i
    ensures var o := UmountFrom(s, g, drivers, i);
      forall j :: 0 <= j < i ==> o.s.ml[j] == s.ml[j]
  {
    if i == MAX_MOUNT_POINTS {
    } else if s.ml[i].pt == EXT4_TYPE && s.ml[i].mounted {
      var u := LwextUmountSpec(s, g, i, drivers[i]);
      if u.code == EOK {
        UnmountOne(s, g, drivers[i], i);
        UmountFromPrefix(ClrMl(u.s, i), u.g, drivers, i + 1);
      }
    } else {
      UmountFromPrefix(s, g, drivers, i + 1);
    }
  }

  /** Two states that agree on the entries from i on stop at the same entry. */
  lemma SameFirstFailure(s: RegState, s1: RegState, drivers: seq<PartDriver>, i: nat)
    requires WellFormed(s) && WellFormed(s1) && |drivers| == MAX_MOUNT_POINTS && i <= MAX_MOUNT_POINTS
    requires forall j :: i <= j < MAX_MOUNT_POINTS ==> s1.ml[j] == s.ml[j]
    ensures FirstFailure(s1, drivers, i) == FirstFailure(s, drivers, i)
  {
  }

  /**
   * The loop unmounts the entries from i up to the first failing one and
   * stops there with ENODEV: the entries before it end as Unmounted's, the
   * failing entry and those after it are unchanged.
   */
  lemma {:induction false} UmountFromEntries(s: RegState, g: GigaState, drivers: seq<PartDriver>, i: nat)
    requires WellFormed(s) && |drivers| == MAX_MOUNT_POINTS && i <= MAX_MOUNT_POINTS
    decreases MAX_MOUNT_POINTS - i, 1
    ensures var o := UmountFrom(s, g, drivers, i); var f := FirstFailure(s, drivers, i);
      (o.code == EOK <==> f == MAX_MOUNT_POINTS) &&
      (forall j :: i <= j < f ==> o.s.ml[j] == Unmounted(s, j)) &&
      (forall j :: f <= j < MAX_MOUNT_POINTS ==> o.s.ml[j] == s.ml[j])
  {
    if i == MAX_MOUNT_POINTS {
    } else if s.ml[i].pt == EXT4_TYPE && s.ml[i].mounted {
      if drivers[i].umountCode == EOK {
        UmountFromHealthy(s, g, drivers, i);
      } else {
        assert FirstFailure(s, drivers, i) == i && UmountFrom(s, g, drivers, i).s == s;
      }
    } else {
      UmountFromEntries(s, g, drivers, i + 1);
      UmountFromPrefix(s, g, drivers, i + 1);
      assert UmountFrom(s, g, drivers, i) == UmountFrom(s, g, drivers, i + 1);
      assert FirstFailure(s, drivers, i) == FirstFailure(s, drivers, i + 1);
      assert Unmounted(s, i) == s.ml[i];
    }
  }

  /** UmountFromEntries at a mounted ext4 entry that unmounts cleanly. */
  lemma {:induction false} UmountFromHealthy(s: RegState, g: GigaState, drivers: seq<PartDriver>, i: nat)
    requires WellFormed(s) && |drivers| == MAX_MOUNT_POINTS && i < MAX_MOUNT_POINTS
    requires s.ml[i].pt == EXT4_TYPE && s.ml[i].mounted && drivers[i].umountCode == EOK
    decreases MAX_MOUNT_POINTS - i, 0
    ensures var o := UmountFrom(s, g, drivers, i); var f := FirstFailure(s, drivers, i);
      (o.code == EOK <==> f == MAX_MOUNT_POINTS) &&
      (forall j :: i <= j < f ==> o.s.ml[j] == Unmounted(s, j)) &&
      (forall j :: f <= j < MAX_MOUNT_POINTS ==> o.s.ml[j] == s.ml[j])
  {
    var u := LwextUmountSpec(s, g, i, drivers[i]);
    var s1 := ClrMl(u.s, i);
    UnmountOne(s, g, drivers[i], i);
    UmountFromEntries(s1, u.g, drivers, i + 1);
    UmountFromPrefix(s1, u.g, drivers, i + 1);
    SameFirstFailure(s, s1, drivers, i + 1);
    assert UmountFrom(s, g, drivers, i) == UmountFrom(s1, u.g, drivers, i + 1);
    assert FirstFailure(s, drivers, i) == FirstFailure(s1, drivers, i + 1);
    assert forall j :: i < j < MAX_MOUNT_POINTS ==> Unmounted(s1, j) == Unmounted(s, j);
  }

  /** The loop's whole effect from entry i on: its code, the kept prefix, the entries up to the first failure, and the device list. */
  lemma UmountFromEffect(s: RegState, g: GigaState, drivers: seq<PartDriver>, i: nat)
    requires WellFormed(s) && |drivers| == MAX_MOUNT_POINTS && i <= MAX_MOUNT_POINTS
    ensures var o := UmountFrom(s, g, drivers, i);
      WellFormed(o.s) && o.s.count == s.count && o.s.bd == s.bd &&
      (o.code == EOK || o.code == ENODEV) &&
      (o.code == EOK <==> AllUnmountFrom(s, drivers, i)) &&
      (forall j :: 0 <= j < i ==> o.s.ml[j] == s.ml[j]) &&
      var f := FirstFailure(s, drivers, i);
      (o.code == EOK <==> f == MAX_MOUNT_POINTS) &&
      (forall j :: i <= j < f ==> o.s.ml[j] == Unmounted(s, j)) &&
      (forall j :: f <= j < MAX_MOUNT_POINTS ==> o.s.ml[j] == s.ml[j]) &&
      (o.code == EOK ==> forall j :: i <= j < MAX_MOUNT_POINTS ==> o.s.ml[j] == Unmounted(s, j))
  {
    UmountFromCode(s, g, drivers, i);
    UmountFromPrefix(s, g, drivers, i);
    UmountFromEntries(s, g, drivers, i);
  }

  /**
   * umountFS succeeds exactly when every mounted ext4 partition unmounts.
   * On success those entries are unmounted (and cleared below the device
   * count), the others are unchanged and device 0 is cleared; on failure it
   * answers ENODEV and leaves the device registry alone.
   */
  lemma UmountFsResult(s: RegState, g: GigaState, drivers: seq<PartDriver>)
    requires WellFormed(s) && |drivers| == MAX_MOUNT_POINTS
    ensures var o := UmountFsSpec(s, g, drivers);
      WellFormed(o.s) &&
      (o.code == EOK <==> AllUnmountFrom(s, drivers, 0)) &&
      (o.code != EOK ==> o.code == ENODEV && o.s.bd == s.bd) &&
      (o.code == EOK ==>
         IsClearedDevice(o.s.bd[0]) &&
         (forall k :: 1 <= k < s.count ==> o.s.bd[k] == s.bd[k]) &&
         (forall j :: 0 <= j < MAX_MOUNT_POINTS ==> o.s.ml[j] == Unmounted(s, j) && !(o.s.ml[j].pt == EXT4_TYPE && o.s.ml[j].mounted)))
  {
    UmountFromEffect(s, g, drivers, 0);
  }

  /** umountFS keeps mounted entries available. */
  lemma UmountFsKeepsInvariant(s: RegState, g: GigaState, drivers: seq<PartDriver>)
    requires WellFormed(s) && |drivers| == MAX_MOUNT_POINTS && MountedImpliesAvailable(s)
    ensures MountedImpliesAvailable(UmountFsSpec(s, g, drivers).s)
  {
    UmountFromEffect(s, g, drivers, 0);
    var o := UmountFsSpec(s, g, drivers);
    forall j | 0 <= j < MAX_MOUNT_POINTS && o.s.ml[j].mounted
      ensures o.s.ml[j].available
    {
    }
  }

  /** Every mounted entry's parent copy records a connected device. */
  ghost predicate MountedImpliesParentConnected(s: RegState)
  {
    forall j :: 0 <= j < |s.ml| ==> s.ml[j].mounted ==> s.ml[j].parentBd.connected
  }

  /**
   * Scanning, clearing and unmounting keep every mounted entry's parent
   * copy connected; mounting keeps it when the entry's own parent copy is
   * connected.
   */
  lemma ParentOpsKeepInvariant(s: RegState, g: GigaState, dev: Byte, d: PartDriver, k: int, m: MbrScan)
    requires WellFormed(s) && dev < MAX_MOUNT_POINTS && WellFormedScan(m) && MountedImpliesParentConnected(s)
    ensures MountedImpliesParentConnected(ScanMbrSpec(s, m).s)
    ensures MountedImpliesParentConnected(ClrMl(s, k)) && MountedImpliesParentConnected(ClrBdl(s, k))
    ensures MountedImpliesParentConnected(LwextUmountSpec(s, g, dev, d).s)
    ensures s.ml[dev].parentBd.connected ==>
      MountedImpliesParentConnected(LwextMountSpec(s, dev, d).s) && MountedImpliesParentConnected(MountSpec(s, g, dev, d).s)
  {
    ScanParentsKept(s, m);
  }

  /**
   * init_block_device keeps every mounted entry's parent copy connected:
   * it either links all of them to a connected record or leaves them alone.
   */
  lemma InitKeepsParentInvariant(s: RegState, drv: DriveRef, dev: Byte, c: bool, m: MbrScan)
    requires WellFormed(s) && WellFormedScan(m) && MountedImpliesParentConnected(s)
    ensures MountedImpliesParentConnected(InitBlockDeviceSpec(s, drv, dev, c, m).s)
  {
    var dd := if dev >= 4 then 3 else dev;
    if dd < s.count as int - 1 && c && !s.bd[dd].connected {
      var s1 := s.(bd := s.bd[dd := Attached(s.bd[dd], drv, dd)]);
      ScanParentsKept(WithParent(s1, s1.bd[dd]), m);
    } else if dd < s.count as int - 1 && !c && s.bd[dd].connected {
      var s1 := ClrBdl(s, dd);
      assert forall j :: 0 <= j < MAX_MOUNT_POINTS ==>
        ClrMlSpan(s1, 0, MAX_MOUNT_POINTS).ml[j].parentBd == s.ml[j].parentBd;
    } else if dd < s.count as int - 1 && !c {
      ScanParentsKept(s, m);
    }
  }

  /** A scan keeps the mount flags and the parent copies of every entry. */
  lemma ScanParentsKept(s: RegState, m: MbrScan)
    requires WellFormed(s) && WellFormedScan(m)
    ensures forall j :: 0 <= j < MAX_MOUNT_POINTS ==>
      ScanMbrSpec(s, m).s.ml[j].mounted == s.ml[j].mounted && ScanMbrSpec(s, m).s.ml[j].parentBd == s.ml[j].parentBd
  {
  }

  /**
   * init_block_device on a slot whose drive is absent and which was never
   * connected still scans, without linking parents; lwext_mount does not
   * look at the parent either, so it mounts an entry whose parent copy is
   * the disconnected default.
   */
  lemma OrphanMount(s: RegState, drv: DriveRef, dev: Byte, b: PartBdev, d: PartDriver)
    requires WellFormed(s) && dev < s.count - 1 && !s.bd[dev].connected && !s.ml[0].parentBd.connected
    requires d.registerCode == EOK && d.mountCode == EOK && d.recoverCode == EOK
    ensures var m := MbrScan(EOK, [Present(EXT4_TYPE, b), Absent, Absent, Absent]);
      var o := InitBlockDeviceSpec(s, drv, dev, false, m);
      o.code == EOK &&
      var mo := LwextMountSpec(o.s, 0, d);
      mo.code == EOK && mo.s.ml[0].mounted && !mo.s.ml[0].parentBd.connected &&
      !MountedImpliesParentConnected(mo.s)
  {
    var m := MbrScan(EOK, [Present(EXT4_TYPE, b), Absent, Absent, Absent]);
    var o := InitBlockDeviceSpec(s, drv, dev, false, m);
    ScanAvailability(s, m, 0);
    LwextMountIff(o.s, 0, d);
  }

  /** One more clr_ML_entry extends a cleared span by one entry. */
  lemma ClrMlSpanStep(s: RegState, lo: nat, n: nat)
    requires WellFormed(s)
    ensures ClrMl(ClrMlSpan(s, lo, n), lo + n) == ClrMlSpan(s, lo, n + 1)
  {
  }
}

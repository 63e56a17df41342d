/**
 * Record types, constants and tables of the GIGA ext4 wrapper's header
 * (src/GIGAext4FS.h): the physical block-device record, the mount-point
 * record, their default field values, and the partition names.
 */
module GigaTypes {
  import opened Wrappers

  /** An unsigned 8-bit value, as the source's uint8_t. */
  type Byte = x: int | 0 <= x < 256

  /** Partition-type byte of the ext2/3/4 family in a master boot record. */
  const EXT4_TYPE: Byte := 0x83
  /** Partition-type byte of FAT32 in a master boot record. */
  const FAT32_TYPE: Byte := 0x0b

  const EXT4_BLOCK_SIZE: nat := 512

  /** Only four mount points are available. */
  const MAX_MOUNT_POINTS: nat := 4

  /** Low-level device name given to a connected drive. */
  const DEVICE_NAME: string := "sda"

  /** Sentinel written into names of cleared entries. */
  const UNKNOWN_NAME: string := "UnKnown"

  /** Partition device names, one per mount point. */
  const MP_NAME: seq<string> := ["sda1", "sda2", "sda3", "sda4"]

  /** A USB mass-storage driver object, identified by a handle. */
  type DriveRef = nat

  /**
   * One physical block device. `drive` is the USBHostMSD pointer and
   * `pbdev` the index of the static lwext4 block device it uses (None for
   * the null pointer). The registry is static storage, so an entry that was
   * never written has an empty name and null pointers.
   */
  datatype BlockDevice = BlockDevice(
    devId: int,
    name: string,
    drive: Option<DriveRef>,
    pbdev: Option<nat>,
    connected: bool)

  const DEFAULT_BLOCK_DEVICE: BlockDevice := BlockDevice(-1, "", None, None, false)

  /** The partition's lwext4 block device as the MBR scan describes it. */
  datatype PartBdev = PartBdev(offset: nat, size: nat)

  /**
   * One mount point. `parentBd` is a copy of the parent device's record,
   * held by value: later changes to the device registry do not reach it.
   */
  datatype MountEntry = MountEntry(
    available: bool,
    volName: string,
    pname: string,
    partbdev: PartBdev,
    pt: Byte,
    parentBd: BlockDevice,
    mounted: bool)

  const DEFAULT_MOUNT_ENTRY: MountEntry :=
    MountEntry(false, "", "", PartBdev(0, 0), 0, DEFAULT_BLOCK_DEVICE, false)

  /** The name of partition device i: "sda" followed by the digit i + 1. */
  function MountPointName(i: nat): (r: string)
    requires i < MAX_MOUNT_POINTS
    ensures |r| == 4 && r[..3] == DEVICE_NAME
    ensures r[3] as int == '1' as int + i
  {
    MP_NAME[i]
  }

  /** Different mount points have different names. */
  lemma MountPointNamesDistinct(i: nat, j: nat)
    requires i < MAX_MOUNT_POINTS && j < MAX_MOUNT_POINTS
    ensures MountPointName(i) == MountPointName(j) <==> i == j
  {
    if MountPointName(i) == MountPointName(j) {
      assert MountPointName(i)[3] == MountPointName(j)[3];
    }
  }

  /** The defaults describe a device that is not connected and a mount point that holds nothing. */
  lemma DefaultsAreEmpty()
    ensures DEFAULT_BLOCK_DEVICE.devId == -1 && !DEFAULT_BLOCK_DEVICE.connected
    ensures !DEFAULT_MOUNT_ENTRY.available && DEFAULT_MOUNT_ENTRY.pt == 0 && !DEFAULT_MOUNT_ENTRY.mounted
    ensures EXT4_TYPE != FAT32_TYPE
  {
  }
}

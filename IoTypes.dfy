/**
 * Constants and the drive record of the I/O utility header
 * (src/ext4IOutility.h).
 */
module IoTypes {
  import opened Wrappers
  import opened GigaTypes

  // USB devices.
  const SDA: nat := 0
  const SDB: nat := 1

  // Ext4 partitions.
  const SDA1: nat := 0
  const SDA2: nat := 1
  const SDA3: nat := 2
  const SDA4: nat := 3

  // FAT32 partitions.
  const FAT1: nat := 4
  const FAT2: nat := 5
  const FAT3: nat := 6
  const FAT4: nat := 7

  /** Maximum number of partitions per USB drive. */
  const NUM_USB_LOGICAL_DRVS: nat := 4
  /** Total number of logical drives. */
  const TOTAL_LD: nat := 8

  /** The number of drive records (msd[2]). */
  const NUM_DRIVES: nat := 2

  /** A USB drive and the file-system type found on it. */
  datatype DrvType = DrvType(
    drive: Option<DriveRef>,
    fsType: int,
    connected: bool,
    initialized: bool,
    mounted: bool)

  const DEFAULT_DRV_TYPE: DrvType := DrvType(None, -1, false, false, false)

  /** Volume prefixes of the logical drives: ext4 volumes first, then FAT volumes. */
  const MP_ID: seq<string> :=
    ["/sda1/", "/sda2/", "/sda3/", "/sda4/", "/fat1/", "/fat2/", "/fat3/", "/fat4/"]

  /** The ext4 half of the volume table is the partition-name table wrapped in slashes. */
  lemma VolumeTableMatchesNames(i: nat)
    requires i < MAX_MOUNT_POINTS
    ensures MP_ID[i] == "/" + MP_NAME[i] + "/"
    ensures |MP_ID[i]| == 6
  {
  }

  /** The volume table has TOTAL_LD distinct six-character entries, ordered like the index constants. */
  lemma VolumeTableShape()
    ensures |MP_ID| == TOTAL_LD == 2 * NUM_USB_LOGICAL_DRVS
    ensures forall i :: 0 <= i < |MP_ID| ==> |MP_ID[i]| == 6
    ensures forall i, j :: 0 <= i < j < |MP_ID| ==> MP_ID[i] != MP_ID[j]
    ensures MP_ID[SDA1] == "/sda1/" && MP_ID[SDA4] == "/sda4/"
    ensures MP_ID[FAT1] == "/fat1/" && MP_ID[FAT4] == "/fat4/"
  {
    forall i, j | 0 <= i < j < |MP_ID|
      ensures MP_ID[i] != MP_ID[j]
    {
      assert MP_ID[i][1] != MP_ID[j][1] || MP_ID[i][4] != MP_ID[j][4];
    }
  }
}

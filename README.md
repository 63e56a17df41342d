# GIGAext4 — a Dafny model of the ext4 USB mass-storage driver core

GIGAext4 lets an Arduino GIGA (mbed OS) read and write ext4 partitions on a USB
mass-storage device through lwext4, side by side with FAT32 volumes. This project
models its core in Dafny and proves properties of the model:

- **the shared registries** of `GIGAext4FS.cpp`: the block-device list `bd_list`
  and the partition mount list `mount_list`. These become class `Giga.Registry`,
  with two arrays: the device list has `CONFIG_EXT4_BLOCKDEVS_COUNT` entries (kept
  symbolic, 1 to 4), the mount list `MAX_MOUNT_POINTS` (4).
- **the `GIGAext4` driver object**: class `Giga.GigaExt4`, holding the current
  partition `id` and the last volume name read from the mount statistics. It covers:
  - the block-device callbacks (open, read and write) and their device lookup;
  - clearing of entries;
  - the MBR scan, `init_block_device` and `get_fs_type`;
  - mounting and unmounting of one partition, and `umountFS`;
  - `lwext_stat`.
- **`EXT4FileSystem.cpp`**:
  - the file-level slot table `_extfs`: class `Ext4Fs.ExtfsTable`;
  - `EXT4FileSystem` instances: class `Ext4Fs.Ext4FileSystem`, with their `mount` and `unmount`;
  - the pure mappings: directory-entry type remapping, path prefixing, open-flag to
    mode-string translation, `stat`, `statvfs`, and the `dir_read` filter.
- **`ext4IOUtility.cpp` / `ext4IOutility.h`**: the drive lifecycle over the two-entry
  `msd` table and the four `extfsp` instances. This is class `IoUtility.DriveManager`:
  `connectInitialized`, `mountDrives` and `umountDrives`. The same file gives:
  - volume names and ids: `getMPid`, and the size helpers with their 64-bit wrap-around;
  - `checkAvailable` and `entry_to_str`;
  - the wildcard matcher `wildcardMatch`, proved equal to a recursive glob specification;
  - `getWildCard`, which goes over C character buffers and is modelled on Dafny arrays.

Every state-changing method is proved against a value-level function. Its `ensures`
says that the new state, paired with the returned code, equals that function applied
to the old state. The lemmas beside each function then state what the source promises:
- the if-and-only-if conditions of success;
- what is cleared and what is left alone;
- invariants that are preserved;
- the round trip of mount then unmount;
- the code's own surprises, such as a partition routed to the wrong mount entry.

Whatever lies outside the repository is a parameter supplied by the caller:

| source dependency | in the model |
|---|---|
| lwext4 calls (`ext4_device_register`, `ext4_mount`, `ext4_recover`, `ext4_mount_point_stats`, `ext4_umount`) | a `PartDriver` record of result codes and a volume name, one per partition |
| `ext4_mbr_scan` | an `MbrScan` record |
| a USB drive | a `UsbDrive` record |
| the FAT32 driver | a result code |
| `ext4_dir_open`, `ext4_fopen` | result codes |
| the directory stream of `dir_read` | a sequence of entries |

A `UsbDrive` record holds:
- the drive's handle;
- the answers `connected()` gives on successive polls;
- the answer `connected()` gives at `init_block_device`;
- the result of `init()`;
- its MBR scan.

The wait loop of `connectInitialized` polls for `CONNECT_TIMEOUT`
(`ext4IOutility.h:57`) milliseconds. The model counts that deadline in polls instead.

Where the code does something the surrounding comments or the naming do not suggest,
the model follows the code:
- `clr_ML_entry` and `clr_Mount_List` bound their argument by
  `CONFIG_EXT4_BLOCKDEVS_COUNT - 1`, not by `MAX_MOUNT_POINTS - 1`. So with fewer than
  four block devices, the mount entries at or above the device count are never cleared.
- `clr_Mount_List` clears only three entries.
- `connectInitialized` reports `true` after an ext4 drive fails to initialise, having
  reset the drive's record.
- `mount` treats only positive `lwext_mount` codes as failure.
- In `mountDrives`, each `extfsp[i]` claims the first free `_extfs` slot and mounts the
  partition of that slot, not partition `i`.
- `totalSize` and `freeSize` index `extfsp` by any id `getMPid` returns. The model
  keeps the out-of-range ids (FAT and unknown) as a `BadIndex` result.

## Model

| member | source | states |
|---|---|---|
| GigaTypes.MountPointName | src/GIGAext4FS.h:72-77 | mount point i is named `sda` followed by the digit i+1 |
| GigaTypes.MountPointNamesDistinct | src/GIGAext4FS.h:72-77 | two mount-point names are equal exactly when their indices are |
| GigaTypes.DefaultsAreEmpty | src/GIGAext4FS.h:83-100 | a fresh block device has id -1 and is disconnected; a fresh mount entry is unavailable, unmounted, type 0; the ext4 and FAT32 type bytes differ |
| Giga.ClrBdl | src/GIGAext4FS.cpp:400-408 | clearing a device entry keeps the registry well formed and leaves the mount list and device count alone |
| Giga.ClrMl | src/GIGAext4FS.cpp:413-420 | clearing a mount entry keeps the registry well formed and leaves the device list alone |
| Giga.ClrMlSpan | src/GIGAext4FS.cpp:433-438 | clearing a run of mount entries touches only the mount list |
| Giga.ClrBdAll | src/GIGAext4FS.cpp:425-428 | after clearing the device list every device entry below the count is cleared and the mount list is untouched |
| Giga.ScanMbrSpec | src/GIGAext4FS.cpp:369-395 | an MBR scan changes only the mount list and returns the scan's own code |
| Giga.WithParent | src/GIGAext4FS.cpp:470-475 | attaching a parent device changes only the mount list |
| Giga.InitBlockDeviceSpec | src/GIGAext4FS.cpp:443-478 | initialising a block device keeps the registry well formed and its device count |
| Giga.GetFsTypeSpec | src/GIGAext4FS.cpp:349-364 | the type probe leaves the mount list alone and answers -1, ENODEV or a partition type byte |
| Giga.LwextMountSpec | src/GIGAext4FS.cpp:546-578 | mounting one partition changes only the mount list |
| Giga.MountSpec | src/GIGAext4FS.cpp:583-603 | mounting a device changes at most its own mount entry |
| Giga.LwextUmountSpec | src/GIGAext4FS.cpp:616-638 | unmounting one partition changes only the mount list |
| Giga.UmountFrom | src/GIGAext4FS.cpp:648-656 | the unmount loop from entry i changes only the mount list |
| Giga.UmountFsSpec | src/GIGAext4FS.cpp:644-660 | unmounting a whole device keeps the registry well formed |
| Giga.LwextStat | src/GIGAext4FS.cpp:484-512 | success exactly when a buffer is filled; a regular file exactly for a non-root path that is not a directory and opens as a file, with its size; otherwise a directory of size 0; on failure the file-open code |
| Giga.Registry.constructor | src/GIGAext4FS.h:102-103 | a new registry is the initial state: every device and mount entry at its default |
| Giga.Registry.InitDeviceId | src/GIGAext4FS.cpp:122-128 | every device entry below the count becomes disconnected with id equal to its slot, nothing else changes |
| Giga.Registry.GetBdev | src/GIGAext4FS.cpp:133-144 | returns the static slot a handle names, and -1 exactly for handles that are not a static device below the count |
| Giga.Registry.GetDeviceIndex | src/GIGAext4FS.cpp:149-162 | a partition handle resolves to its parent's device id when the parent is connected, every other handle to -1 |
| Giga.Registry.BdOpen | src/GIGAext4FS.cpp:167-190 | the open callback's status is the value-level open status of the current registry |
| Giga.Registry.BdRead | src/GIGAext4FS.cpp:195-225 | the read callback's status is the value-level read status of the current registry |
| Giga.Registry.BdWrite | src/GIGAext4FS.cpp:231-261 | the write callback's status is the value-level write status of the current registry |
| Giga.GigaExt4.constructor | src/GIGAext4FS.cpp:305-309 | a new driver object has partition id 0 and an empty volume name |
| Giga.GigaExt4.ClrBdlEntry | src/GIGAext4FS.cpp:400-408 | succeeds exactly for a device below the count, and the registry becomes the cleared one |
| Giga.GigaExt4.ClrMlEntry | src/GIGAext4FS.cpp:413-420 | succeeds exactly for an index below the device count, and the registry becomes the cleared one |
| Giga.GigaExt4.ClrBdList | src/GIGAext4FS.cpp:425-428 | the registry becomes the one with every device entry cleared |
| Giga.GigaExt4.ClrMountList | src/GIGAext4FS.cpp:433-438 | succeeds exactly for a device below the count, then clears the three entries from it on; on refusal nothing changes |
| Giga.GigaExt4.ScanMbr | src/GIGAext4FS.cpp:369-395 | the new registry and code are those of the MBR scan specification |
| Giga.GigaExt4.InitBlockDevice | src/GIGAext4FS.cpp:443-478 | the new registry and code are those of the initialisation specification |
| Giga.GigaExt4.Detach | src/GIGAext4FS.cpp:460-465 | clears the device entry and then all four mount entries |
| Giga.GigaExt4.LinkParents | src/GIGAext4FS.cpp:470-475 | every mount entry gets the device entry as its parent |
| Giga.GigaExt4.GetFsType | src/GIGAext4FS.cpp:349-364 | the new registry and code are those of the type-probe specification |
| Giga.GigaExt4.LwextMount | src/GIGAext4FS.cpp:546-578 | the new registry and code are those of the partition-mount specification |
| Giga.GigaExt4.Mount | src/GIGAext4FS.cpp:583-603 | the new registry, driver state and code are those of the device-mount specification |
| Giga.GigaExt4.LwextUmount | src/GIGAext4FS.cpp:616-638 | the new registry, driver state and code are those of the partition-unmount specification |
| Giga.GigaExt4.UmountFS | src/GIGAext4FS.cpp:644-660 | the new registry, driver state and code are those of the device-unmount specification |
| Giga.ResolveIndex | src/GIGAext4FS.cpp:171-174 | a static handle resolves to its slot when below the count, a partition handle to its parent copy's device id when that copy is connected, anything else to -1 |
| Giga.OpenStatus | src/GIGAext4FS.cpp:167-190 | open never returns an error code; it succeeds exactly for a resolved index above 2 or a slot below the count with a drive |
| Giga.ReadStatus | src/GIGAext4FS.cpp:195-225 | read returns only EOK or EIO as a code, EOK exactly for an index above 2 or a present drive whose transfer answers EOK |
| Giga.WriteStatus | src/GIGAext4FS.cpp:231-261 | write returns only EOK or EIO as a code, EOK exactly for an index above 2 or a present drive whose transfer status is 0 once truncated to 8 bits |
| Giga.ScanEntry | src/GIGAext4FS.cpp:383-393 | an entry becomes available exactly when its partition is present, then takes its type byte, `/sdaN/` name and partition device; an absent one is named UnKnown and keeps its type and device; mounted flag, parent copy and volume name are kept |
| Giga.Attached | src/GIGAext4FS.cpp:454-459 | the attached record is connected, holds the drive, its slot as id and partition device, and the device name; every other field is kept |
| Giga.OpenNeverReportsIo | src/GIGAext4FS.cpp:167-190 | opening never yields EIO; it dereferences a null drive exactly for a USB slot below the count with no drive, and indexes out of bounds exactly for an unresolved handle or a resolved index of at most 2 that is not below the count |
| Giga.ForeignHandleOutOfBounds | src/GIGAext4FS.cpp:133-162 | a handle that is neither a static device nor a partition resolves to -1, and open, read and write all index out of bounds |
| Giga.ReadWriteAgree | src/GIGAext4FS.cpp:195-261 | read and write agree for every transfer status below 256; for status 256 on a present drive, read reports EIO while write reports success (the write path truncates the status to 8 bits) |
| Giga.ClearIdempotent | src/GIGAext4FS.cpp:400-420 | clearing twice equals clearing once; an index below the count ends cleared, keeping the mount entry's volume name, partition device and parent copy; every other entry is unchanged; an index at or past the count leaves the registry as it was |
| Giga.ClrMountListSkipsLast | src/GIGAext4FS.cpp:433-438 | with four devices, clearing the mount list from 0 clears entries 0 to 2 and leaves entry 3 as it was |
| Giga.ScanAvailability | src/GIGAext4FS.cpp:383-393 | after a successful scan an entry is available exactly when its partition is present, then carrying its type byte, `/sdaN/` name and partition device; an absent one is named UnKnown; mounted flags and parents are kept |
| Giga.ScanFailureKeeps | src/GIGAext4FS.cpp:377-381 | a failing scan returns its code and changes nothing |
| Giga.ReconnectIsNoOp | src/GIGAext4FS.cpp:452-453 | initialising a connected drive on an already connected slot succeeds and changes nothing |
| Giga.InitRefusesHighSlots | src/GIGAext4FS.cpp:448-469 | a slot at or above count-1 (after clamping to 3) returns ENODEV and changes nothing |
| Giga.AttachRoutesPartitions | src/GIGAext4FS.cpp:454-476 | attaching a new drive records it in the slot, makes it every entry's parent, marks entries available by the scan, and routes partition I/O to the drive |
| Giga.DisconnectClears | src/GIGAext4FS.cpp:460-465 | a removed drive returns ENODEV, clears its slot and every mount entry below the count, keeps the other slots, parents and entries at or above the count |
| Giga.IoAfterRemoval | src/GIGAext4FS.cpp:167-261 | after removal, opening the slot dereferences a null drive and reads and writes through its partitions fail with EIO |
| Giga.FsTypeAmbiguous | src/GIGAext4FS.cpp:359-362 | a missing first partition and a first partition whose type byte equals ENODEV give the same answer |
| Giga.FsTypeExt4 | src/GIGAext4FS.cpp:349-364 | the probe answers the ext4 type exactly when init and scan succeed and partition 0 is ext4; a successful init records the drive; a failed init changes nothing and answers -1 |
| Giga.LwextMountIff | src/GIGAext4FS.cpp:546-578 | the entry ends mounted exactly when the code is EOK, which happens exactly when it is available and register, mount and recover (EOK or ENOTSUP) succeed; only its mounted flag and no other entry change |
| Giga.MountIff | src/GIGAext4FS.cpp:583-603 | with positive driver errors, mount succeeds exactly when the entry ends mounted, exactly when every lwext4 step and the statistics call succeed; then the volume name is recorded and the id set |
| Giga.MountNegativeCodeReportsSuccess | src/GIGAext4FS.cpp:591-594 | a negative register code makes mount report success while the entry stays unmounted |
| Giga.MountUmountRoundTrip | src/GIGAext4FS.cpp:583-638 | mounting then unmounting an available partition with a healthy driver succeeds twice and restores the registry except for the recorded volume name; the label is cleared |
| Giga.MountOpsKeepInvariant | src/GIGAext4FS.cpp:400-638 | partition mount, device mount, unmount and both clears keep every mounted entry available |
| Giga.ScanKeepsInvariant | src/GIGAext4FS.cpp:383-393 | a scan that still finds every mounted partition keeps mounted entries available |
| Giga.ScanStrandsMountedEntry | src/GIGAext4FS.cpp:384-388 | a rescan that loses a mounted partition leaves an entry mounted but unavailable |
| Giga.UnmountOne | src/GIGAext4FS.cpp:649-654 | a healthy unmount of ext4 entry i, then clearing it, leaves that entry unmounted and cleared and every other entry as it was |
| Giga.UmountFromCode | src/GIGAext4FS.cpp:648-656 | the loop answers EOK or ENODEV, EOK exactly when every mounted ext4 entry from i on unmounts cleanly |
| Giga.UmountFromPrefix | src/GIGAext4FS.cpp:648-656 | the loop from i leaves the entries before i alone |
| Giga.FirstFailure | src/GIGAext4FS.cpp:648-656 | the first entry from i on that is a mounted ext4 entry whose unmount fails, or MAX_MOUNT_POINTS when there is none |
| Giga.UmountFromEntries | src/GIGAext4FS.cpp:648-656 | the loop answers EOK exactly when no entry fails; the entries before the first failing one end unmounted (and cleared below the count), that entry and every later one are unchanged |
| Giga.UmountFromHealthy | src/GIGAext4FS.cpp:648-656 | the same facts at a mounted ext4 entry that unmounts cleanly |
| Giga.UmountFromEffect | src/GIGAext4FS.cpp:648-656 | the loop's combined effect: code, prefix kept, entries unmounted up to the first failure and unchanged from it on, device list untouched |
| Giga.UmountFsResult | src/GIGAext4FS.cpp:644-660 | umountFS succeeds exactly when every mounted ext4 entry unmounts cleanly; then device 0 is cleared, the other devices kept, no ext4 entry stays mounted; otherwise ENODEV with the device list kept |
| Giga.UmountFsKeepsInvariant | src/GIGAext4FS.cpp:644-660 | umountFS keeps every mounted entry available |
| Giga.ParentOpsKeepInvariant | src/GIGAext4FS.cpp:546-578 | scanning, clearing and unmounting keep every mounted entry's parent copy connected; mounting keeps it when the mounted entry's own parent copy is connected |
| Giga.InitKeepsParentInvariant | src/GIGAext4FS.cpp:443-478 | init_block_device keeps every mounted entry's parent copy connected |
| Giga.ScanParentsKept | src/GIGAext4FS.cpp:383-393 | a scan keeps every entry's mounted flag and parent copy |
| Giga.OrphanMount | src/GIGAext4FS.cpp:443-478 | on a never-connected slot with no drive, init still scans without linking parents and succeeds, and lwext_mount then mounts an entry whose parent copy is disconnected, breaking "mounted implies parent connected" |
| Giga.ClrMlSpanStep | src/GIGAext4FS.cpp:435-436 | clearing a run and then the next entry equals clearing the longer run |
| Ext4Fs.RemapDirType | src/EXT4FileSystem.cpp:37-60 | the remapped type is a dirent type, and unknown ext4 types map to DT_UNKNOWN |
| Ext4Fs.RemapDirTypeBijective | src/EXT4FileSystem.cpp:37-60 | on the eight known types the map is a bijection with an explicit inverse |
| Ext4Fs.ExtPathPrefix | src/EXT4FileSystem.cpp:98-113 | the prefixed path is `/sdaN/` followed by the path, fitting the allocated buffer |
| Ext4Fs.ExtPathPrefixInjective | src/EXT4FileSystem.cpp:98-113 | prefixed paths are equal exactly when slot and path are |
| Ext4Fs.OpenMode | src/EXT4FileSystem.cpp:511-533 | the mode is one of the six fopen modes, and `r` exactly when no append, create, read-write or write-only flag is set |
| Ext4Fs.OpenModeTable | src/EXT4FileSystem.cpp:511-533 | append gives `a+`; create gives `w+` with truncate, else `a`; otherwise read-write `r+`, write-only `w`, else `r`; always one of six modes |
| Ext4Fs.OpenModeHonours | src/EXT4FileSystem.cpp:511-533 | the chosen mode keeps create, append and read-write requests, is read-only for a plain open, and truncates only without append and with truncate or write-only asked |
| Ext4Fs.OpenModeDeviations | src/EXT4FileSystem.cpp:511-533 | write-only alone truncates and creates; read-write with create opens for append |
| Ext4Fs.Stat | src/EXT4FileSystem.cpp:443-463 | failure returns the negated code and leaves the buffer; success copies the size and sets the mode to lwext_stat's mode with all nine permission bits added |
| Ext4Fs.StatOfPrefixedPath | src/EXT4FileSystem.cpp:443-463 | stat of a prefixed path reports a directory exactly when the directory opens, a regular file of the file's size exactly when only the file opens, and fails with the negated open code otherwise |
| Ext4Fs.Statvfs | src/EXT4FileSystem.cpp:465-489 | failure returns the code and a zero buffer; success fills block size, counts, free counts, name length 256 and fsid 0 from the mount statistics |
| Ext4Fs.NextVisible | src/EXT4FileSystem.cpp:724-740 | the entry is the first one of the stream that is not hidden (every entry before it is a dot entry being skipped), the rest is what follows it; none only when every entry is hidden; with dots shown it is the head |
| Ext4Fs.DirRead | src/EXT4FileSystem.cpp:720-746 | returns 1 with the name and remapped type exactly when the next visible entry exists and has a non-empty name, otherwise 0 with the entry untouched (an empty name gives 0 even when a later entry has one), and consumes the stream up to that entry |
| Ext4Fs.FirstFree | src/EXT4FileSystem.cpp:144-150 | the first free slot, with every earlier slot taken, or -1 exactly when all are taken |
| Ext4Fs.ExtMountSpec | src/EXT4FileSystem.cpp:135-159 | mount through the slot table keeps the device list and a valid instance id |
| Ext4Fs.ExtUnmountSpec | src/EXT4FileSystem.cpp:161-202 | unmount through the slot table always leaves the instance without a slot |
| Ext4Fs.ExtfsTable.constructor | src/EXT4FileSystem.cpp:33 | the slot table starts with every slot free |
| Ext4Fs.Ext4FileSystem.constructor | src/EXT4FileSystem.cpp:116-121 | a new instance has no slot (id -1) |
| Ext4Fs.Ext4FileSystem.Mount | src/EXT4FileSystem.cpp:135-159 | the new registry, slots, instance and code are those of the slot-table mount specification |
| Ext4Fs.Ext4FileSystem.Unmount | src/EXT4FileSystem.cpp:161-202 | the new registry, slots, instance and code are those of the slot-table unmount specification |
| Ext4Fs.ExtMountResult | src/EXT4FileSystem.cpp:135-159 | an instance with a slot gets -EINVAL, a full table -ENOMEM, both with no change; otherwise it claims the first free slot, stores the device there and returns the driver mount's code for that slot |
| Ext4Fs.ExtMountKeepsConsistent | src/EXT4FileSystem.cpp:144-150 | mounting a real device keeps each instance's slot pointing to an occupied slot owned by it alone |
| Ext4Fs.ExtUnmountKeepsConsistent | src/EXT4FileSystem.cpp:161-202 | unmounting keeps the slot–instance correspondence and frees the instance |
| Ext4Fs.NullDeviceSharesSlot | src/EXT4FileSystem.cpp:144-150 | mounting a null device twice hands the same slot to both instances, breaking the correspondence |
| Ext4Fs.ExtUnmountResult | src/EXT4FileSystem.cpp:161-202 | without a slot -EINVAL and no change; otherwise the slot is freed; a failed driver unmount returns its code after clearing device 0 and the entry; success returns the deinit code with the entry unmounted and the label cleared |
| IoTypes.VolumeTableMatchesNames | src/ext4IOutility.h:72-81 | each ext4 volume id is the mount-point name between slashes, six characters long |
| IoTypes.VolumeTableShape | src/ext4IOutility.h:39-81 | eight distinct six-character volume ids, `/sda1/`…`/sda4/` then `/fat1/`…`/fat4/` |
| IoUtility.EntryToStr | src/ext4IOUtility.cpp:65-88 | the label is `[???]` exactly for values past the eight entry types, otherwise a bracketed `<…>` word |
| IoUtility.EntryLabels | src/ext4IOUtility.cpp:65-88 | known entry types have distinct bracketed labels, unknown ones `[???]`; every remapped type has a label; directories and files read `<DIR>` and `<FILE>` |
| IoUtility.IndexOf | src/ext4IOUtility.cpp:105-108 | the first index holding the key, or -1 exactly when it is absent |
| IoUtility.MountPointId | src/ext4IOUtility.cpp:99-109 | the id of the volume whose six-character id begins the name, or -1 exactly when none does |
| IoUtility.GetMPid | src/ext4IOUtility.cpp:99-109 | the loop returns the volume id of the name |
| IoUtility.MountPointIdExamples | src/ext4IOUtility.cpp:99-109 | `/sda2/x` is 1, `/fat1/dir/file` is the first FAT id, and `/sda1` without the slash is -1 |
| IoUtility.PrefixedPathVolume | src/ext4IOUtility.cpp:99-109 | the volume id of a prefixed ext4 path is its slot |
| IoUtility.TotalSize | src/ext4IOUtility.cpp:123-127 | indexes out of range exactly for names that are not an ext4 volume |
| IoUtility.FreeSize | src/ext4IOUtility.cpp:130-134 | indexes out of range exactly for names that are not an ext4 volume |
| IoUtility.UsedBytes | src/ext4IOUtility.cpp:118-119 | used bytes fit 64 bits: total minus free when free is at most total, otherwise the 64-bit wrap-around of the difference |
| IoUtility.UsedSize | src/ext4IOUtility.cpp:112-120 | indexes out of range exactly for unknown names |
| IoUtility.SizesAddUp | src/ext4IOUtility.cpp:112-134 | for a readable ext4 volume whose size fits 64 bits, used plus free is total and used is at most total |
| IoUtility.SizesOfUnreadableVolume | src/ext4IOUtility.cpp:112-134 | when statvfs fails all three sizes are 0 |
| IoUtility.SizesOfFatVolume | src/ext4IOUtility.cpp:112-134 | for a FAT volume total and free index out of range while used comes from the FAT statistics |
| IoUtility.CheckAvailable | src/ext4IOUtility.cpp:138-141 | dereferences a null drive exactly when the record has none, and is true exactly when the drive is connected and the record mounted |
| IoUtility.GlobShift | src/ext4IOUtility.cpp:312-316 | matching a literal run advances both positions together |
| IoUtility.GlobRunForward | src/ext4IOUtility.cpp:312-316 | a star-free run in a match lines up character by character |
| IoUtility.GlobStar | src/ext4IOUtility.cpp:318-321 | a star matches what the rest matches from some later position |
| IoUtility.AnyFromMono | src/ext4IOUtility.cpp:326-327 | a match from a later start gives one from an earlier start |
| IoUtility.AnyFromEnd | src/ext4IOUtility.cpp:319 | a pattern ending in a star matches any remainder |
| IoUtility.AnyFromTooShort | src/ext4IOUtility.cpp:317-329 | a star-free run longer than the remaining name cannot match |
| IoUtility.AnyFromCommit | src/ext4IOUtility.cpp:318-321 | passing the next star keeps a match reachable |
| IoUtility.AnyFromUncommit | src/ext4IOUtility.cpp:318-321 | a match after the next star gives one before it |
| IoUtility.AnyFromStarStep | src/ext4IOUtility.cpp:318-321 | reaching the next star across a matched run leaves the outcome unchanged |
| IoUtility.AnyFromBacktrack | src/ext4IOUtility.cpp:325-328 | on a mismatch restarting one character later leaves the outcome unchanged |
| IoUtility.AnyFromAtEnd | src/ext4IOUtility.cpp:330-331 | when the name runs out the outcome is whether the rest of the pattern is all stars |
| IoUtility.WildcardMatch | src/ext4IOUtility.cpp:308-332 | the matcher answers exactly the glob specification (`?` one character, `*` any run) |
| IoUtility.MatchLiteralPrefix | src/ext4IOUtility.cpp:312-316 | a mismatch before the first star rules out a match; otherwise it stops at the name's end or a star, with the match unchanged |
| IoUtility.MatchFromStar | src/ext4IOUtility.cpp:317-331 | the backtracking loop answers exactly the glob specification |
| IoUtility.MatchTrailingStars | src/ext4IOUtility.cpp:330-331 | once the name is consumed, the answer is exactly the glob specification |
| IoUtility.StarMatchesAll | src/ext4IOUtility.cpp:308-332 | `*` matches every name |
| IoUtility.StarFreeMatches | src/ext4IOUtility.cpp:308-332 | a star-free pattern matches exactly the names of its length agreeing wherever it is not `?` |
| IoUtility.StarsMatchEmpty | src/ext4IOUtility.cpp:330-331 | the empty rest of a name matches exactly a run of stars |
| IoUtility.TrailingStars | src/ext4IOUtility.cpp:330-331 | appending stars to a matching pattern keeps it matching |
| IoUtility.CLen | src/ext4IOUtility.cpp:344 | the position of the first terminator |
| IoUtility.CStr | src/ext4IOUtility.cpp:344 | the characters before the first terminator |
| IoUtility.CStrOfTerminated | src/ext4IOUtility.cpp:357-358 | a buffer holding a string then a terminator reads back as that string |
| IoUtility.SplitIndex | src/ext4IOUtility.cpp:349-352 | the last `/`, or 0, with no `/` after it |
| IoUtility.SplitIndexCases | src/ext4IOUtility.cpp:349-352 | with a slash the split is at the last one, otherwise at 0 |
| IoUtility.FindSplit | src/ext4IOUtility.cpp:349-352 | the backward walk stops at the split index |
| IoUtility.CopyRun | src/ext4IOUtility.cpp:354-356 | copies the run into the front of the buffer and keeps the rest |
| IoUtility.WildCardBuffers | src/ext4IOUtility.cpp:357-358 | the truncated spec reads as the path up to its last slash, the pattern as what follows |
| IoUtility.GetWildCard | src/ext4IOUtility.cpp:342-363 | no '.' or empty spec changes nothing and answers false; otherwise exactly the terminator at k+1 and the copied tail are written, spec plus pattern is the original, and the answer is whether the pattern is non-empty |
| IoUtility.CutAtSplit | src/ext4IOUtility.cpp:349-362 | the split-and-copy stage leaves exactly the buffers GetWildCard promises |
| IoUtility.PatternAfterCopy | src/ext4IOUtility.cpp:354-357 | the copied run plus terminators equals the tail followed by two terminators |
| IoUtility.WildCardSplit | src/ext4IOUtility.cpp:354-362 | the two written buffers read back as a split of the spec whose second part is non-empty exactly when its first character is not a terminator |
| IoUtility.ConnectsWithinIff | src/ext4IOUtility.cpp:154-164 | a drive answers within the budget exactly when some poll in the window is connected |
| IoUtility.ConnectSpec | src/ext4IOUtility.cpp:148-184 | connecting changes only the drive's record and the registry |
| IoUtility.MountLoop | src/ext4IOUtility.cpp:224-235 | the partition loop keeps the device list and the other record, and changes only the mounted flag of this one |
| IoUtility.MountAt | src/ext4IOUtility.cpp:227 | one partition mount keeps the records and the device list |
| IoUtility.UnmountAt | src/ext4IOUtility.cpp:266 | one partition unmount keeps the records |
| IoUtility.MountDrivesSpec | src/ext4IOUtility.cpp:215-253 | mounting drives keeps the device count |
| IoUtility.UmountLoop | src/ext4IOUtility.cpp:264-274 | the unmount loop keeps the records and the device count |
| IoUtility.UmountExt4Spec | src/ext4IOUtility.cpp:263-277 | the ext4 unmount path keeps the records and the device count |
| IoUtility.UmountDrivesSpec | src/ext4IOUtility.cpp:258-295 | unmounting drives keeps the device count |
| IoUtility.UmountStep | src/ext4IOUtility.cpp:265-272 | one loop step keeps the records |
| IoUtility.ConnectResult | src/ext4IOUtility.cpp:148-184 | already connected and mounted: true, no change; false exactly when the drive never answers, then the record is reset and the registry kept; otherwise true, and: ext4 with a successful init_block_device records the drive, connected and initialised, with init's registry; ext4 with a failed init resets the record; FAT32 records the drive, connected, other fields kept; any other type resets the record |
| IoUtility.SingleSlotDropsExt4 | src/ext4IOUtility.cpp:170-182 | with a single block-device slot an ext4 drive can never be recorded as ext4 |
| IoUtility.ConnectKeepsValid | src/ext4IOUtility.cpp:148-184 | connecting keeps the world invariant |
| IoUtility.MountAtKeepsValid | src/ext4IOUtility.cpp:227 | one partition mount keeps the world invariant |
| IoUtility.UnmountAtKeepsValid | src/ext4IOUtility.cpp:266 | one partition unmount keeps the world invariant |
| IoUtility.RecordUpdateKeepsValid | src/ext4IOUtility.cpp:230-233 | writing a drive record keeps the world invariant |
| IoUtility.MountLoopKeepsValid | src/ext4IOUtility.cpp:224-235 | the partition loop keeps the world invariant |
| IoUtility.MountAtFree | src/ext4IOUtility.cpp:226-233 | mounting instance i into free slot i with a healthy driver succeeds, mounts entry i and changes no other entry or instance |
| IoUtility.FirstFreeAt | src/EXT4FileSystem.cpp:144-150 | the first free slot is the free one after all taken slots |
| IoUtility.MountLoopFrame | src/ext4IOUtility.cpp:224-235 | the loop from i leaves earlier instances and every taken slot and its entry alone |
| IoUtility.MountLoopInOrder | src/ext4IOUtility.cpp:224-235 | with free slots and healthy ext4 partitions from i on, every instance mounts its own partition and the drive is marked mounted |
| IoUtility.MountLoopMisroutes | src/ext4IOUtility.cpp:224-235 | when partition 0 is not ext4, instance 1 claims slot 0 and mounts partition 0 |
| IoUtility.FirstMountFailure | src/ext4IOUtility.cpp:224-235 | the first partition from i on, in the world the loop reaches there, that is an unmounted ext4 entry whose mount fails; MAX_MOUNT_POINTS when none is |
| IoUtility.MountLoopFailure | src/ext4IOUtility.cpp:224-235 | the loop answers EOK exactly when no mount fails; otherwise it returns the first failing mount's code and world, with the drive record marked unmounted and no later partition tried |
| IoUtility.MountDrivesResult | src/ext4IOUtility.cpp:215-253 | ENODEV and the connect outcome when the drive does not connect; success implies mounted; ext4: a failing partition mount's code with the record unmounted, else EOK when the record ends mounted and ENOTSUP when not; FAT succeeds and marks the drive initialised and mounted exactly as the FAT driver does, else ENOTSUP; other types give ENOTSUP unless already mounted |
| IoUtility.MountDrivesKeepsValid | src/ext4IOUtility.cpp:215-253 | mounting drives keeps the world invariant |
| IoUtility.ExtUnmountKeepsCleared | src/EXT4FileSystem.cpp:161-202 | an unmount keeps cleared entries cleared and changes only the flag of entries at or above the count |
| IoUtility.UmountLoopUnfold | src/ext4IOUtility.cpp:264-274 | the loop is one step, the entry cleared, then the loop from the next index |
| IoUtility.UmountLoopClears | src/ext4IOUtility.cpp:264-274 | the loop keeps cleared entries cleared, clears every entry from i below the count, and changes entries at or above the count only in their flag |
| IoUtility.UmountLoopIdle | src/ext4IOUtility.cpp:264-274 | with nothing mounted the loop keeps its code, slots and instances |
| IoUtility.UmountLoopKeepsValid | src/ext4IOUtility.cpp:264-274 | the unmount loop keeps the world invariant |
| IoUtility.UmountDrivesResult | src/ext4IOUtility.cpp:258-295 | the record is reset and the other kept; for ext4 device 0 and entries below the count are cleared, the rest keep type and availability, and with nothing mounted it answers EOK; other types keep the registry and answer the FAT code or EOK; the drive is no longer checkable |
| IoUtility.UmountDrivesKeepsValid | src/ext4IOUtility.cpp:258-295 | unmounting drives keeps the world invariant |
| IoUtility.InitialWorld | src/ext4IOUtility.cpp:26-45 | the start-up state has the world's shape |
| IoUtility.InitialWorldValid | src/ext4IOUtility.cpp:26-45 | the start-up state satisfies the invariant: no instance has a slot, no drive is recorded, nothing is mounted |
| IoUtility.WaitConnected | src/ext4IOUtility.cpp:154-164 | the polling loop reports connected exactly when the drive answers within the budget |
| IoUtility.DriveManager.constructor | src/ext4IOUtility.cpp:26-45 | the objects start in the start-up state |
| IoUtility.DriveManager.NewInstances | src/ext4IOUtility.cpp:35-40 | four fresh, distinct instances over the shared registry and slot table, none holding a slot |
| IoUtility.DriveManager.NewInstance | src/ext4IOUtility.cpp:35-39 | one fresh instance over the shared registry and slot table, holding no slot |
| IoUtility.DriveManager.SetRecord | src/ext4IOUtility.cpp:166-168 | the drive's record is replaced and nothing else changes |
| IoUtility.DriveManager.FsType | src/ext4IOUtility.cpp:167 | the type probe through the first instance, per its specification |
| IoUtility.DriveManager.InitDevice | src/ext4IOUtility.cpp:171 | block-device initialisation of slot 0 through the first instance, per its specification |
| IoUtility.DriveManager.ConnectInitialized | src/ext4IOUtility.cpp:148-184 | the new state and answer are those of the connect specification |
| IoUtility.DriveManager.MountPartitions | src/ext4IOUtility.cpp:224-235 | the new state and code are those of the partition loop specification |
| IoUtility.DriveManager.MountInstance | src/ext4IOUtility.cpp:227 | the new state and code are those of one instance's mount |
| IoUtility.DriveManager.UnmountInstance | src/ext4IOUtility.cpp:266 | the new state and code are those of one instance's unmount |
| IoUtility.DriveManager.ClearEntry | src/ext4IOUtility.cpp:273 | only the entry is cleared |
| IoUtility.DriveManager.MountDrives | src/ext4IOUtility.cpp:215-253 | the new state and code are those of the mount-drives specification |
| IoUtility.DriveManager.UnmountExt4 | src/ext4IOUtility.cpp:263-277 | the new state and code are those of the ext4 unmount path |
| IoUtility.DriveManager.UnmountPartitions | src/ext4IOUtility.cpp:264-274 | the new state and code are those of the unmount loop |
| IoUtility.DriveManager.ClearDevice | src/ext4IOUtility.cpp:276 | only the device entry is cleared |
| IoUtility.DriveManager.UmountDrives | src/ext4IOUtility.cpp:258-295 | the new state and code are those of the unmount-drives specification |

## Left out

- Printing and listing: `dumpMountList`, `dumpBDList`, `dumpDrvType`, `hexDmp`, `lsDir`, `lsSubDir`, `lsFiles`. They only format text for the serial console.
- `fileSize` and `exists`: thin wrappers over the POSIX layer (`open`, `lseek`, `stat`), which is not part of this model.
- The forwarding file operations of `EXT4FileSystem`: `remove`, `rename`, `mkdir`, `file_close` … `file_truncate`, `dir_open`, `dir_close`, `dir_seek`, `dir_tell`, `dir_rewind`. Each only prefixes the path (modelled in `ExtPathPrefix`) and forwards to lwext4. `file_open` is modelled only as its flag-to-mode table.
- Accessors that return a pointer or a field: `getMSDinfo`, `getExt4fs`, `getFat32fs`, `get_mount_list`, `get_bd_list`, `get_mp_name`, both `getVolumeLabel`, `getfs`, and `getMountStats`, which forwards to `ext4_mount_point_stats`.
- `lwext_mkfs`, `format`, `reformat`: they build a file system by calls into lwext4, which is not part of this model.
- Locking: `mp_lock`, `mp_unlock`, `lock`, `unlock`, `ext4_bd_lock`, `ext4_bd_unlock`. Concurrency is not modelled, so in `dir_read` there is no early return that keeps the lock held.
- `ext4_bd_close` and `ext4_bd_ctrl`: they are empty, or report block sizes unused by the modelled paths.
- The failure of `new` in `ext_path_prefix` is not modelled: allocation always succeeds.
- The `EXT4FileSystem(name, bd)` constructor path with a non-null device, which mounts immediately, is not modelled separately. That mount is `Ext4FileSystem.Mount`.
- `EXT4FileSystem::mount(bd)` without the flag (`EXT4FileSystem.cpp:129-133`) only forwards.
- The destructor and `GIGAext4::init()` return without effect on the modelled state.
- The commented-out copy of `mount` and `unmount` (`EXT4FileSystem.cpp:205-253`) is not live code.
- Hardware and time:
  - `connected()` at `init_block_device` is sampled once per drive;
  - `init()` there is called and its result ignored, so it is not modelled;
  - one MBR scan result serves each drive;
  - `millis()` is replaced by a budget of failed polls.
- The FAT32 file system is not modelled. Its `mount`, `unmount` and `statvfs` are result codes or statistics passed in.
- Undefined behaviour in the source is not given a meaning:
  - it becomes a precondition (an index into `msd` beyond 1, a null `drive` where the code dereferences it);
  - `ExtPathPrefix` requires a slot `0 <= id`, so the forwarding operations called on an instance with no slot (`_id == -1`, as in `remove` at `EXT4FileSystem.cpp:388`), which would prefix the path with an out-of-range `mpName[-1]`, are not modelled;
  - or an explicit value: `IoStatus` `NullDeref`/`OutOfBounds` for the block-device callbacks, `BadIndex` for the size helpers, `CheckAvailable` answering `None`.
- Byte-oriented C strings are `seq<char>`, and fixed-size name buffers (`pname`, `volName`) have no length limit. The `strcpy`/`sprintf` overflows they could suffer are not modelled.
- Giga.UmountFrom, Giga.ClrMlSpan, Giga.WithParent and the other value-level state functions state only framing in their own `ensures`. What they compute is stated by the lemmas named beside them in the table.
- IoUtility.ConnectSpec, IoUtility.MountDrivesSpec and IoUtility.UmountDrivesSpec likewise state only framing. Their meaning is in ConnectResult, MountDrivesResult (with MountLoopFailure) and UmountDrivesResult.
- IoUtility.TotalSize, IoUtility.FreeSize and IoUtility.UsedSize state only when they index out of range. Their values are related by SizesAddUp, SizesOfUnreadableVolume and SizesOfFatVolume, which model the 64-bit wrap-around explicitly.

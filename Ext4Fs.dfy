/**
 * The mbed file-system adapter over GIGAext4 (src/EXT4FileSystem.cpp):
 * the static table of block devices _extfs, the instance slot _id that
 * mount and unmount claim and release, and the pure conversions between
 * lwext4 and mbed/POSIX values (directory entry types, open modes, stat
 * and statvfs, path prefixes, directory reads).
 */
module Ext4Fs {
  import opened Wrappers
  import opened Errno
  import opened GigaTypes
  import opened Giga

  // ---------------------------------------------------------------------
  // Directory entry types
  // ---------------------------------------------------------------------

  // lwext4's inode types in directory entries.
  const EXT4_DE_UNKNOWN: Byte := 0
  const EXT4_DE_REG_FILE: Byte := 1
  const EXT4_DE_DIR: Byte := 2
  const EXT4_DE_CHRDEV: Byte := 3
  const EXT4_DE_BLKDEV: Byte := 4
  const EXT4_DE_FIFO: Byte := 5
  const EXT4_DE_SOCK: Byte := 6
  const EXT4_DE_SYMLINK: Byte := 7

  // mbed's dirent types.
  const DT_UNKNOWN: Byte := 0
  const DT_FIFO: Byte := 1
  const DT_CHR: Byte := 2
  const DT_DIR: Byte := 3
  const DT_BLK: Byte := 4
  const DT_REG: Byte := 5
  const DT_LNK: Byte := 6
  const DT_SOCK: Byte := 7

  /** remap_dir_type: lwext4 entry type to mbed entry type. */
  function RemapDirType(t: Byte): (r: Byte)
    ensures r <= 7
    ensures t > 7 ==> r == DT_UNKNOWN
  {
    if t == EXT4_DE_UNKNOWN then DT_UNKNOWN
    else if t == EXT4_DE_REG_FILE then DT_REG
    else if t == EXT4_DE_DIR then DT_DIR
    else if t == EXT4_DE_CHRDEV then DT_CHR
    else if t == EXT4_DE_BLKDEV then DT_BLK
    else if t == EXT4_DE_FIFO then DT_FIFO
    else if t == EXT4_DE_SOCK then DT_SOCK
    else if t == EXT4_DE_SYMLINK then DT_LNK
    else DT_UNKNOWN
  }

  /** The lwext4 type that names the same kind of file as mbed type d. */
  function Ext4TypeOf(d: Byte): Byte
    requires d <= 7
  {
    [EXT4_DE_UNKNOWN, EXT4_DE_FIFO, EXT4_DE_CHRDEV, EXT4_DE_DIR,
     EXT4_DE_BLKDEV, EXT4_DE_REG_FILE, EXT4_DE_SYMLINK, EXT4_DE_SOCK][d]
  }

  /** On the eight lwext4 codes the remapping is a bijection onto the eight mbed codes. */
  lemma RemapDirTypeBijective(t: Byte, d: Byte)
    ensures t <= 7 ==> Ext4TypeOf(RemapDirType(t)) == t
    ensures d <= 7 ==> RemapDirType(Ext4TypeOf(d)) == d
  {
  }

  // ---------------------------------------------------------------------
  // Path prefixes
  // ---------------------------------------------------------------------

  /** The size of the buffer ext_path_prefix allocates: strlen("/sda1/") + strlen(path) + 1. */
  function PrefixBufferSize(path: string): nat
  {
    |"/sda1/"| + |path| + 1
  }

  /** ext_path_prefix(id, path): "/sdaN/" in front of path, exactly filling the buffer with its terminator. */
  function ExtPathPrefix(id: int, path: string): (r: string)
    requires 0 <= id < MAX_MOUNT_POINTS
    ensures |r| + 1 == PrefixBufferSize(path)
    ensures r[..6] == "/" + MountPointName(id) + "/" && r[6..] == path
  {
    "/" + MP_NAME[id] + "/" + path
  }

  /** Different instances prefix a path differently, and the prefix can be split off again. */
  lemma ExtPathPrefixInjective(i: int, j: int, p: string, q: string)
    requires 0 <= i < MAX_MOUNT_POINTS && 0 <= j < MAX_MOUNT_POINTS
    ensures ExtPathPrefix(i, p) == ExtPathPrefix(j, q) <==> i == j && p == q
  {
    if ExtPathPrefix(i, p) == ExtPathPrefix(j, q) {
      assert ExtPathPrefix(i, p)[..6] == ExtPathPrefix(j, q)[..6];
      assert ExtPathPrefix(i, p)[6..] == ExtPathPrefix(j, q)[6..];
      MountPointNamesDistinct(i, j);
      assert ("/" + MountPointName(i) + "/")[1..5] == MountPointName(i);
      assert ("/" + MountPointName(j) + "/")[1..5] == MountPointName(j);
    }
  }

  // ---------------------------------------------------------------------
  // Open modes
  // ---------------------------------------------------------------------

  // mbed's open flags.
  const O_RDONLY: bv32 := 0
  const O_WRONLY: bv32 := 1
  const O_RDWR: bv32 := 2
  const O_APPEND: bv32 := 0x0008
  const O_CREAT: bv32 := 0x0200
  const O_TRUNC: bv32 := 0x0400

  predicate Has(flags: bv32, f: bv32)
  {
    flags & f != 0
  }

  /** The fopen mode file_open passes to lwext4 for POSIX flags. */
  function OpenMode(flags: bv32): (r: string)
    ensures r in ["r", "w", "a", "r+", "w+", "a+"]
    ensures r == "r" <==> !Has(flags, O_APPEND) && !Has(flags, O_CREAT) && !Has(flags, O_RDWR) && !Has(flags, O_WRONLY)
  {
    var m0 := if Has(flags, O_RDWR) then "r+" else if Has(flags, O_WRONLY) then "w" else "r";
    var m1 := if Has(flags, O_CREAT) then (if Has(flags, O_TRUNC) then "w+" else "a") else m0;
    if Has(flags, O_APPEND) then "a+" else m1
  }

  /** The POSIX flags lwext4's ext4_fopen opens with for each fopen mode. */
  function ModeFlags(mode: string): bv32
  {
    if mode == "r" then O_RDONLY
    else if mode == "w" then O_WRONLY | O_CREAT | O_TRUNC
    else if mode == "a" then O_WRONLY | O_CREAT | O_APPEND
    else if mode == "r+" then O_RDWR
    else if mode == "w+" then O_RDWR | O_CREAT | O_TRUNC
    else if mode == "a+" then O_RDWR | O_CREAT | O_APPEND
    else O_RDONLY
  }

  /** The six modes file_open can choose, with their precedence. */
  lemma OpenModeTable(flags: bv32)
    ensures Has(flags, O_APPEND) ==> OpenMode(flags) == "a+"
    ensures !Has(flags, O_APPEND) && Has(flags, O_CREAT) ==>
              OpenMode(flags) == if Has(flags, O_TRUNC) then "w+" else "a"
    ensures !Has(flags, O_APPEND) && !Has(flags, O_CREAT) ==>
              OpenMode(flags) == if Has(flags, O_RDWR) then "r+" else if Has(flags, O_WRONLY) then "w" else "r"
    ensures OpenMode(flags) in ["r", "w", "a", "r+", "w+", "a+"]
  {
  }

  /**
   * What the effective flags keep of the requested ones: a requested
   * create or append is honoured, and a request with no write flag opens
   * read-only.
   */
  lemma OpenModeHonours(flags: bv32)
    ensures var eff := ModeFlags(OpenMode(flags));
      (Has(flags, O_CREAT) ==> Has(eff, O_CREAT)) &&
      (Has(flags, O_APPEND) ==> Has(eff, O_APPEND) && Has(eff, O_RDWR)) &&
      (!Has(flags, O_WRONLY) && !Has(flags, O_RDWR) && !Has(flags, O_CREAT) && !Has(flags, O_APPEND) ==> eff == O_RDONLY) &&
      (Has(eff, O_TRUNC) ==> !Has(flags, O_APPEND) && (Has(flags, O_TRUNC) || Has(flags, O_WRONLY)))
  {
  }

  /**
   * Where the effective flags differ from the requested ones: write-only
   * without O_CREAT truncates, and read-write with O_CREAT alone loses read
   * access and appends.
   */
  lemma OpenModeDeviations()
    ensures ModeFlags(OpenMode(O_WRONLY)) == O_WRONLY | O_CREAT | O_TRUNC
    ensures ModeFlags(OpenMode(O_RDWR | O_CREAT)) == O_WRONLY | O_CREAT | O_APPEND
  {
  }

  // ---------------------------------------------------------------------
  // stat and statvfs
  // ---------------------------------------------------------------------

  /** S_IRWXU | S_IRWXG | S_IRWXO */
  const S_IRWXA: bv32 := 0x1FF

  /** The fields of struct stat that stat sets. */
  datatype PosixStat = PosixStat(mode: bv32, size: nat)

  /** stat's conversion of an lwext_stat reply: failure negated and st untouched. */
  function Stat(reply: StatReply, prior: PosixStat): (r: (int, PosixStat))
    requires reply.code == EOK <==> reply.buf.Some?
    ensures reply.code != EOK ==> r == (-reply.code, prior)
    ensures reply.code == EOK ==>
      r.0 == 0 && r.1.size == reply.buf.value.size && r.1.mode == reply.buf.value.mode | S_IRWXA &&
      r.1.mode & S_IRWXA == S_IRWXA && r.1.mode & S_IFMT == reply.buf.value.mode & S_IFMT
  {
    if reply.code != EOK then (-reply.code, prior)
    else
      var mode: bv32 := 0;
      var mode := mode | reply.buf.value.mode;
      (0, PosixStat(mode | S_IRWXA, reply.buf.value.size))
  }

  /**
   * stat on instance id: a prefixed path is never the bare root, so a
   * directory answer means ext4_dir_open succeeded, and a file answer
   * carries the size ext4_fsize reported.
   */
  lemma StatOfPrefixedPath(id: int, path: string, dirOpenCode: int, fopenCode: int, fileSize: nat, prior: PosixStat)
    requires 0 <= id < MAX_MOUNT_POINTS
    ensures var r := Stat(LwextStat(ExtPathPrefix(id, path), dirOpenCode, fopenCode, fileSize), prior);
      (r.0 == 0 && r.1.mode & S_IFMT == S_IFDIR <==> dirOpenCode == EOK) &&
      (r.0 == 0 && r.1.mode & S_IFMT == S_IFREG <==> dirOpenCode != EOK && fopenCode == EOK) &&
      (r.0 == 0 && r.1.mode & S_IFMT == S_IFREG ==> r.1.size == fileSize) &&
      (r.0 != 0 <==> dirOpenCode != EOK && fopenCode != EOK) &&
      (r.0 != 0 ==> r == (-fopenCode, prior))
  {
    var p := ExtPathPrefix(id, path);
    assert p[0] == '/' && |p| >= 6;
  }

  /** The lwext4 mount-point statistics statvfs reads. */
  datatype MountStats = MountStats(blockSize: nat, blocksCount: nat, freeBlocksCount: nat)

  /** mbed's struct statvfs. */
  datatype StatVfs = StatVfs(bsize: nat, frsize: nat, blocks: nat, bfree: nat, bavail: nat, fsid: nat, namemax: nat)

  const ZERO_VFS: StatVfs := StatVfs(0, 0, 0, 0, 0, 0, 0)

  /** statvfs: `code` and `st` are ext4_mount_point_stats's answer; the buffer is zeroed first. */
  function Statvfs(code: int, st: MountStats): (r: (int, StatVfs))
    ensures code != EOK ==> r == (code, ZERO_VFS)
    ensures code == EOK ==> (r.0 == 0 &&
      r.1.bsize == r.1.frsize == st.blockSize && r.1.blocks == st.blocksCount &&
      r.1.bfree == r.1.bavail == st.freeBlocksCount && r.1.namemax == 256 && r.1.fsid == 0)
  {
    var buf := ZERO_VFS;
    if code != EOK then (code, buf)
    else
      var buf := buf.(bsize := st.blockSize, frsize := st.blockSize, blocks := st.blocksCount);
      var buf := buf.(bfree := st.freeBlocksCount);
      (0, buf.(bavail := buf.bfree, namemax := 256))
  }

  // ---------------------------------------------------------------------
  // dir_read
  // ---------------------------------------------------------------------

  /** A directory entry as lwext4 returns it. */
  datatype DirEntry = DirEntry(name: string, inodeType: Byte)

  /** mbed's struct dirent. */
  datatype Dirent = Dirent(name: string, dtype: Byte)

  predicate IsDot(name: string)
  {
    name == "." || name == ".."
  }

  /**
   * The entry dir_read looks at and the entries left after it, where
   * `stream` is what ext4_dir_entry_next will yield; with `skipDots`
   * (DONT_SHOW_DOT_FILES) the "." and ".." entries are passed over.
   */
  function NextVisible(skipDots: bool, stream: seq<DirEntry>): (r: (Option<DirEntry>, seq<DirEntry>))
    ensures |r.1| <= |stream| && r.1 == stream[|stream| - |r.1|..]
    ensures r.0.Some? ==> r.0.value in stream && (skipDots ==> !IsDot(r.0.value.name))
    ensures r.0.None? ==> r.1 == [] && forall k :: 0 <= k < |stream| ==> skipDots && IsDot(stream[k].name)
    ensures r.0.Some? ==>
      |r.1| < |stream| && stream[|stream| - |r.1| - 1] == r.0.value &&
      forall k :: 0 <= k < |stream| - |r.1| - 1 ==> skipDots && IsDot(stream[k].name)
    ensures !skipDots && |stream| > 0 ==> r == (Some(stream[0]), stream[1..])
  {
    if |stream| == 0 then (None, [])
    else if skipDots && IsDot(stream[0].name) then
      var r' := NextVisible(skipDots, stream[1..]);
      assert forall k :: 1 <= k < |stream| ==> stream[k] == stream[1..][k - 1];
      r'
    else (Some(stream[0]), stream[1..])
  }

  /**
   * dir_read: 1 with the entry's name and remapped type when the next
   * visible entry exists and has a name, 0 with `ent` untouched otherwise;
   * an empty name gives 0 even when a later entry has a name. The do-while
   * loop of the dot-skipping configuration is the while loop here.
   */
  method DirRead(skipDots: bool, stream: seq<DirEntry>, prior: Dirent) returns (r: int, ent: Dirent, rest: seq<DirEntry>)
    ensures var nv := NextVisible(skipDots, stream);
      rest == nv.1 &&
      (r == 1 <==> nv.0.Some? && nv.0.value.name != []) &&
      (r != 1 ==> r == 0 && ent == prior) &&
      (r == 1 ==> ent == Dirent(nv.0.value.name, RemapDirType(nv.0.value.inodeType)))
  {
    rest := stream;
    var de: Option<DirEntry> := None;
    if skipDots {
      while true
        invariant NextVisible(true, rest) == NextVisible(true, stream)
        decreases |rest|
      {
        if |rest| == 0 {
          return 0, prior, rest;
        }
        de, rest := Some(rest[0]), rest[1..];
        if !IsDot(de.value.name) {
          break;
        }
      }
    } else if |rest| > 0 {
      de, rest := Some(rest[0]), rest[1..];
    }
    if de.None? {
      return 0, prior, rest;
    } else if de.value.name == [] {
      return 0, prior, rest;
    }
    ent := prior.(dtype := RemapDirType(de.value.inodeType));
    ent := ent.(name := de.value.name);
    return 1, ent, rest;
  }

  // ---------------------------------------------------------------------
  // The instance slot table
  // ---------------------------------------------------------------------

  /** The lowest index of a free (null) slot, or -1. */
  function FirstFree(slots: seq<Option<DriveRef>>): (j: int)
    ensures -1 <= j < |slots|
    ensures j >= 0 ==> slots[j].None? && forall k :: 0 <= k < j ==> slots[k].Some?
    ensures j == -1 <==> forall k :: 0 <= k < |slots| ==> slots[k].Some?
  {
    if |slots| == 0 then -1
    else if slots[0].None? then 0
    else
      var r := FirstFree(slots[1..]);
      if r == -1 then -1 else r + 1
  }

  /** An instance as a value: its _id and its GIGAext4 object. */
  datatype InstState = InstState(id: int, g: GigaState)

  datatype ExtOutcome = ExtOutcome(s: RegState, slots: seq<Option<DriveRef>>, inst: InstState, code: int)

  /**
   * EXT4FileSystem::mount(bd): claim the first free slot j, store bd there
   * and mount partition j; the slot is kept whatever the mount returns.
   */
  function ExtMountSpec(s: RegState, slots: seq<Option<DriveRef>>, inst: InstState, bd: Option<DriveRef>,
                        drivers: seq<PartDriver>): (o: ExtOutcome)
    requires WellFormed(s) && |slots| == MAX_MOUNT_POINTS && |drivers| == MAX_MOUNT_POINTS
    ensures WellFormed(o.s) && o.s.count == s.count && o.s.bd == s.bd && |o.slots| == MAX_MOUNT_POINTS
    ensures -1 <= inst.id < MAX_MOUNT_POINTS ==> -1 <= o.inst.id < MAX_MOUNT_POINTS
  {
    if inst.id != -1 then ExtOutcome(s, slots, inst, -EINVAL)
    else
      var j := FirstFree(slots);
      if j == -1 then ExtOutcome(s, slots, inst, -ENOMEM)
      else
        var o := MountSpec(s, inst.g, j, drivers[j]);
        ExtOutcome(o.s, slots[j := bd], InstState(j, o.g), o.code)
  }

  /**
   * EXT4FileSystem::unmount(): when lwext_umount fails the mount entry and
   * device slot 0 are cleared and its code returned; otherwise deinit()'s
   * code is returned. Either way the slot is freed and _id reset.
   */
  function ExtUnmountSpec(s: RegState, slots: seq<Option<DriveRef>>, inst: InstState, drivers: seq<PartDriver>,
                          deinitCode: int): (o: ExtOutcome)
    requires WellFormed(s) && |slots| == MAX_MOUNT_POINTS && |drivers| == MAX_MOUNT_POINTS
    requires -1 <= inst.id < MAX_MOUNT_POINTS
    ensures WellFormed(o.s) && o.s.count == s.count && |o.slots| == MAX_MOUNT_POINTS && o.inst.id == -1
  {
    if inst.id == -1 then ExtOutcome(s, slots, inst, -EINVAL)
    else
      var u := LwextUmountSpec(s, inst.g, inst.id, drivers[inst.id]);
      if u.code != EOK then
        ExtOutcome(ClrBdl(ClrMl(u.s, inst.id), 0), slots[inst.id := None], InstState(-1, u.g), u.code)
      else
        ExtOutcome(u.s, slots[inst.id := None], InstState(-1, u.g), deinitCode)
  }

  /** _extfs: one block device per mount point, null when free. */
  class ExtfsTable {
    const slots: array<Option<DriveRef>>

    ghost predicate Valid()
    {
      slots.Length == MAX_MOUNT_POINTS
    }

    constructor ()
      ensures Valid() && fresh(slots)
      ensures slots[..] == seq(MAX_MOUNT_POINTS, _ => None)
    {
      slots := new Option<DriveRef>[MAX_MOUNT_POINTS](_ => None);
    }
  }

  /** An EXT4FileSystem object: its _id and its own GIGAext4 driver. */
  class Ext4FileSystem {
    var id: int
    const fs: GigaExt4
    const table: ExtfsTable

    ghost predicate Valid()
      reads this
    {
      -1 <= id < MAX_MOUNT_POINTS && fs.reg.Valid() && table.Valid()
    }

    ghost function Inst(): InstState
      reads this, fs
    {
      InstState(id, fs.Own())
    }

    /** An instance constructed without a block device: it holds no slot. */
    constructor (fs: GigaExt4, table: ExtfsTable)
      requires fs.reg.Valid() && table.Valid()
      ensures Valid() && id == -1 && this.fs == fs && this.table == table
    {
      id := -1;
      this.fs := fs;
      this.table := table;
    }

    /** mount(bd), where `drivers[j]` answers for partition j. */
    method Mount(bd: Option<DriveRef>, drivers: seq<PartDriver>) returns (r: int)
      requires Valid() && |drivers| == MAX_MOUNT_POINTS
      modifies this, table.slots, fs, fs.reg.mountList
      ensures Valid()
      ensures ExtOutcome(fs.reg.State(), table.slots[..], Inst(), r) ==
              ExtMountSpec(old(fs.reg.State()), old(table.slots[..]), old(Inst()), bd, drivers)
    {
      if id != -1 {
        return -EINVAL;
      }
      var i := 0;
      while i < MAX_MOUNT_POINTS
        invariant 0 <= i <= MAX_MOUNT_POINTS
        invariant forall k :: 0 <= k < i ==> table.slots[k].Some?
      {
        if table.slots[i].None? {
          id := i;
          table.slots[id] := bd;
          r := fs.Mount(id, drivers[id]);
          return r;
        }
        i := i + 1;
      }
      return -ENOMEM;
    }

    /** unmount(), where deinit() of the stored block device answers `deinitCode`. */
    method Unmount(drivers: seq<PartDriver>, deinitCode: int) returns (r: int)
      requires Valid() && |drivers| == MAX_MOUNT_POINTS
      requires id != -1 ==> table.slots[id].Some?
      modifies this, table.slots, fs, fs.reg.bdList, fs.reg.mountList
      ensures Valid()
      ensures ExtOutcome(fs.reg.State(), table.slots[..], Inst(), r) ==
              ExtUnmountSpec(old(fs.reg.State()), old(table.slots[..]), old(Inst()), drivers, deinitCode)
    {
      if id == -1 {
        return -EINVAL;
      }
      var res := fs.LwextUmount(id, drivers[id]);
      var err := deinitCode;
      if res != EOK {
        // ext4_umount and ext4_device_unregister are called again; their results are ignored.
        var _ := fs.ClrMlEntry(id);
        var _ := fs.ClrBdlEntry(0);
        table.slots[id] := None;
        id := -1;
        return res;
      }
      if err != 0 {
        table.slots[id] := None;
        id := -1;
        return err;
      }
      table.slots[id] := None;
      id := -1;
      return err;
    }
  }

  // ---------------------------------------------------------------------
  // Properties of the slot table
  // ---------------------------------------------------------------------

  /**
   * Every instance with an _id holds a non-null slot, and no two
   * instances hold the same slot.
   */
  ghost predicate SlotsConsistent(slots: seq<Option<DriveRef>>, ids: seq<int>)
  {
    |slots| == MAX_MOUNT_POINTS &&
    (forall k :: 0 <= k < |ids| ==> -1 <= ids[k] < MAX_MOUNT_POINTS && (ids[k] != -1 ==> slots[ids[k]].Some?)) &&
    (forall k, l :: 0 <= k < |ids| && 0 <= l < |ids| && k != l && ids[k] != -1 ==> ids[k] != ids[l])
  }

  /** mount's outcomes: refused, table full, or the first free slot claimed. */
  lemma ExtMountResult(s: RegState, slots: seq<Option<DriveRef>>, inst: InstState, bd: Option<DriveRef>,
                       drivers: seq<PartDriver>)
    requires WellFormed(s) && |slots| == MAX_MOUNT_POINTS && |drivers| == MAX_MOUNT_POINTS
    ensures var o := ExtMountSpec(s, slots, inst, bd, drivers);
      (inst.id != -1 ==> o == ExtOutcome(s, slots, inst, -EINVAL)) &&
      (inst.id == -1 && (forall k :: 0 <= k < MAX_MOUNT_POINTS ==> slots[k].Some?) ==>
         o == ExtOutcome(s, slots, inst, -ENOMEM)) &&
      (inst.id == -1 && (exists k :: 0 <= k < MAX_MOUNT_POINTS && slots[k].None?) ==>
         0 <= o.inst.id < MAX_MOUNT_POINTS && slots[o.inst.id].None? &&
         (forall k :: 0 <= k < o.inst.id ==> slots[k].Some?) &&
         o.slots == slots[o.inst.id := bd] &&
         o.code == MountSpec(s, inst.g, o.inst.id, drivers[o.inst.id]).code)
  {
  }

  /** With non-null block devices, mount keeps the table consistent. */
  lemma ExtMountKeepsConsistent(s: RegState, slots: seq<Option<DriveRef>>, ids: seq<int>, k: nat, g: GigaState,
                                bd: Option<DriveRef>, drivers: seq<PartDriver>)
    requires WellFormed(s) && |drivers| == MAX_MOUNT_POINTS && SlotsConsistent(slots, ids)
    requires k < |ids| && bd.Some?
    ensures var o := ExtMountSpec(s, slots, InstState(ids[k], g), bd, drivers);
      SlotsConsistent(o.slots, ids[k := o.inst.id])
  {
    var o := ExtMountSpec(s, slots, InstState(ids[k], g), bd, drivers);
    var ids' := ids[k := o.inst.id];
    if ids[k] == -1 && o.inst.id != -1 {
      forall l | 0 <= l < |ids| && l != k
        ensures ids[l] != o.inst.id
      {
      }
    }
  }

  /** unmount always keeps the table consistent. */
  lemma ExtUnmountKeepsConsistent(s: RegState, slots: seq<Option<DriveRef>>, ids: seq<int>, k: nat, g: GigaState,
                                  drivers: seq<PartDriver>, deinitCode: int)
    requires WellFormed(s) && |drivers| == MAX_MOUNT_POINTS && SlotsConsistent(slots, ids) && k < |ids|
    ensures var o := ExtUnmountSpec(s, slots, InstState(ids[k], g), drivers, deinitCode);
      SlotsConsistent(o.slots, ids[k := o.inst.id]) && o.inst.id == -1
  {
  }

  /** Mounting with a null block device lets two instances claim the same slot. */
  lemma NullDeviceSharesSlot(s: RegState, g: GigaState, drivers: seq<PartDriver>)
    requires WellFormed(s) && |drivers| == MAX_MOUNT_POINTS
    ensures var free := seq(MAX_MOUNT_POINTS, _ => None);
      var o1 := ExtMountSpec(s, free, InstState(-1, g), None, drivers);
      var o2 := ExtMountSpec(o1.s, o1.slots, InstState(-1, g), None, drivers);
      o1.inst.id == o2.inst.id == 0 && !SlotsConsistent(o2.slots, [o1.inst.id, o2.inst.id])
  {
    var free: seq<Option<DriveRef>> := seq(MAX_MOUNT_POINTS, _ => None);
    assert FirstFree(free) == 0;
    var o1 := ExtMountSpec(s, free, InstState(-1, g), None, drivers);
    assert o1.slots == free;
    var o2 := ExtMountSpec(o1.s, o1.slots, InstState(-1, g), None, drivers);
    var ids := [o1.inst.id, o2.inst.id];
    assert ids[0] == ids[1] == 0;
  }

  /**
   * unmount's outcomes: refused without an _id; otherwise the slot is freed
   * and _id reset, and a failed lwext_umount also clears the mount entry
   * and device slot 0 and is returned.
   */
  lemma ExtUnmountResult(s: RegState, slots: seq<Option<DriveRef>>, inst: InstState, drivers: seq<PartDriver>,
                         deinitCode: int)
    requires WellFormed(s) && |slots| == MAX_MOUNT_POINTS && |drivers| == MAX_MOUNT_POINTS
    requires -1 <= inst.id < MAX_MOUNT_POINTS
    ensures var o := ExtUnmountSpec(s, slots, inst, drivers, deinitCode);
      (inst.id == -1 ==> o == ExtOutcome(s, slots, inst, -EINVAL)) &&
      (inst.id != -1 ==>
         o.inst.id == -1 && o.slots == slots[inst.id := None] && WellFormed(o.s) &&
         (drivers[inst.id].umountCode != EOK ==>
            o.code == drivers[inst.id].umountCode && IsClearedDevice(o.s.bd[0]) &&
            (inst.id < s.count ==> IsClearedEntry(o.s.ml[inst.id]))) &&
         (drivers[inst.id].umountCode == EOK ==>
            o.code == deinitCode && !o.s.ml[inst.id].mounted && o.s.bd == s.bd && o.inst.g.volume == ""))
  {
  }
}

/**
 * The drive-level utilities (src/ext4IOUtility.cpp): the two drive
 * records msd[] and the four EXT4FileSystem objects extfsp[], the drive
 * lifecycle that connects, mounts and unmounts them, and string helpers
 * for volume names, entry labels, sizes and wildcards.
 */
module IoUtility {
  import opened Wrappers
  import opened Errno
  import opened GigaTypes
  import opened Giga
  import opened Ext4Fs
  import opened IoTypes

  // ---------------------------------------------------------------------
  // Entry labels
  // ---------------------------------------------------------------------

  /** entry_to_str: the listing label of an mbed entry type. */
  function EntryToStr(t: Byte): (r: string)
    ensures r == "[???]" <==> t > 7
    ensures t <= 7 ==> |r| >= 5 && r[0] == '<' && r[|r| - 1] == '>'
  {
    if t == DT_UNKNOWN then "<UNKNOWN>"
    else if t == DT_REG then "<FILE>"
    else if t == DT_DIR then "<DIR>"
    else if t == DT_CHR then "<CHARDEV>"
    else if t == DT_BLK then "<BLOCKDEV>"
    else if t == DT_FIFO then "<FIFO>"
    else if t == DT_SOCK then "<SOCKET>"
    else if t == DT_LNK then "<SYMLINK>"
    else "[???]"
  }

  /**
   * The eight entry types have eight different bracketed labels, every
   * other value is "[???]", and a remapped lwext4 type never gets "[???]".
   */
  lemma EntryLabels(a: Byte, b: Byte, t: Byte)
    ensures a <= 7 && b <= 7 && EntryToStr(a) == EntryToStr(b) ==> a == b
    ensures a <= 7 ==> EntryToStr(a)[0] == '<' && EntryToStr(a)[|EntryToStr(a)| - 1] == '>'
    ensures a > 7 ==> EntryToStr(a) == "[???]"
    ensures EntryToStr(RemapDirType(t)) != "[???]"
    ensures EntryToStr(RemapDirType(EXT4_DE_DIR)) == "<DIR>" && EntryToStr(RemapDirType(EXT4_DE_REG_FILE)) == "<FILE>"
  {
  }

  // ---------------------------------------------------------------------
  // Volume names
  // ---------------------------------------------------------------------

  /** The index of key in table, or -1. */
  function IndexOf(table: seq<string>, key: string): (r: int)
    ensures -1 <= r < |table|
    ensures r >= 0 ==> table[r] == key && forall k :: 0 <= k < r ==> table[k] != key
    ensures r == -1 <==> key !in table
  {
    if |table| == 0 then -1
    else if table[0] == key then 0
    else
      var r := IndexOf(table[1..], key);
      if r == -1 then -1 else r + 1
  }

  /**
   * The logical drive a volume name denotes: the entry of MP_ID equal to
   * its first six characters, or -1.
   */
  function MountPointId(v: string): (r: int)
    ensures -1 <= r < TOTAL_LD
    ensures r >= 0 ==> |v| >= 6 && v[..6] == MP_ID[r]
    ensures r == -1 <==> !(|v| >= 6 && v[..6] in MP_ID)
  {
    if |v| >= 6 then IndexOf(MP_ID, v[..6]) else -1
  }

  /** getMPid(volName): str holds at most the first six characters of volName. */
  method GetMPid(volName: string) returns (r: int)
    ensures r == MountPointId(volName)
  {
    VolumeTableShape();
    var str := if |volName| >= 6 then volName[..6] else volName;
    for i := 0 to TOTAL_LD
      invariant forall k :: 0 <= k < i ==> str != MP_ID[k]
    {
      if str == MP_ID[i] {
        return i;
      }
    }
    return -1;
  }

  /** getMPid only looks at six characters: "/sda2/x" is drive 1, and a short name is no drive. */
  lemma MountPointIdExamples()
    ensures MountPointId("/sda2/x") == SDA2 == 1
    ensures MountPointId("/fat1/dir/file") == FAT1
    ensures MountPointId("/sda1") == -1
  {
    assert "/sda2/x"[..6] == MP_ID[1];
    assert "/fat1/dir/file"[..6] == MP_ID[4];
    VolumeTableShape();
  }

  /** The volume name of a prefixed path is the instance that prefixed it. */
  lemma PrefixedPathVolume(id: int, path: string)
    requires 0 <= id < MAX_MOUNT_POINTS
    ensures MountPointId(ExtPathPrefix(id, path)) == id
  {
    VolumeTableShape();
    VolumeTableMatchesNames(id);
    assert ExtPathPrefix(id, path)[..6] == MP_ID[id];
  }

  // ---------------------------------------------------------------------
  // Sizes
  // ---------------------------------------------------------------------

  const U64_MOD: nat := 0x1_0000_0000_0000_0000

  /** Conversion to uint64_t. */
  function U64(x: int): nat
  {
    x % U64_MOD
  }

  /** A size in bytes, or an index past the end of extfsp or fatfsp. */
  datatype SizeResult = Size(bytes: nat) | BadIndex

  /** totalSize(ld): `code` and `st` are what ext4_mount_point_stats reports for ld. */
  function TotalSize(ld: string, code: int, st: MountStats): (r: SizeResult)
    ensures r.BadIndex? <==> !(0 <= MountPointId(ld) < NUM_USB_LOGICAL_DRVS)
  {
    var id := MountPointId(ld);
    if !(0 <= id < NUM_USB_LOGICAL_DRVS) then BadIndex
    else
      var v := Statvfs(code, st).1;
      Size(U64(v.blocks * v.bsize))
  }

  /** freeSize(ld). */
  function FreeSize(ld: string, code: int, st: MountStats): (r: SizeResult)
    ensures r.BadIndex? <==> !(0 <= MountPointId(ld) < NUM_USB_LOGICAL_DRVS)
  {
    var id := MountPointId(ld);
    if !(0 <= id < NUM_USB_LOGICAL_DRVS) then BadIndex
    else
      var v := Statvfs(code, st).1;
      Size(U64(v.bfree * v.bsize))
  }

  /** usedSize(ld): FAT volumes are asked through fatfsp, whose statvfs answers `fatVfs`. */
  function UsedSize(ld: string, code: int, st: MountStats, fatVfs: StatVfs): (r: SizeResult)
    ensures r.BadIndex? <==> MountPointId(ld) == -1
  {
    var id := MountPointId(ld);
    if id < 0 then BadIndex
    else
      var v := if id < NUM_USB_LOGICAL_DRVS then Statvfs(code, st).1 else fatVfs;
      Size(UsedBytes(v))
  }

  /** totalBytes - freeBytes, each a uint64_t, the difference wrapping as uint64_t does. */
  function UsedBytes(v: StatVfs): (r: nat)
    ensures r < U64_MOD
    ensures var total, free := U64(v.blocks * v.bsize), U64(v.bfree * v.bsize);
      (free <= total ==> r == total - free) && (free > total ==> r == U64_MOD - (free - total))
  {
    U64(U64(v.blocks * v.bsize) - U64(v.bfree * v.bsize))
  }

  lemma MulLe(a: nat, b: nat, c: nat)
    requires a <= b
    ensures a * c <= b * c
  {
  }

  /**
   * For an ext4 volume whose statistics are consistent and whose capacity
   * fits 64 bits, used and free space add up to the total.
   */
  lemma SizesAddUp(ld: string, st: MountStats, fatVfs: StatVfs)
    requires 0 <= MountPointId(ld) < NUM_USB_LOGICAL_DRVS
    requires st.freeBlocksCount <= st.blocksCount && st.blocksCount * st.blockSize < U64_MOD
    ensures UsedSize(ld, EOK, st, fatVfs).bytes + FreeSize(ld, EOK, st).bytes == TotalSize(ld, EOK, st).bytes
    ensures UsedSize(ld, EOK, st, fatVfs).bytes <= TotalSize(ld, EOK, st).bytes
  {
    var v := Statvfs(EOK, st).1;
    var total, free := st.blocksCount * st.blockSize, st.freeBlocksCount * st.blockSize;
    MulLe(st.freeBlocksCount, st.blocksCount, st.blockSize);
    assert v.blocks * v.bsize == total && v.bfree * v.bsize == free;
    assert U64(total) == total && U64(free) == free;
    assert UsedBytes(v) == total - free;
    assert TotalSize(ld, EOK, st) == Size(total) && FreeSize(ld, EOK, st) == Size(free);
  }

  /** When the statistics cannot be read, every size of an ext4 volume is 0. */
  lemma SizesOfUnreadableVolume(ld: string, code: int, st: MountStats, fatVfs: StatVfs)
    requires 0 <= MountPointId(ld) < NUM_USB_LOGICAL_DRVS && code != EOK
    ensures TotalSize(ld, code, st) == FreeSize(ld, code, st) == UsedSize(ld, code, st, fatVfs) == Size(0)
  {
  }

  /**
   * For a FAT volume only usedSize stays inside its table, answering from
   * the FAT statistics whatever ext4 reports; totalSize and freeSize index
   * past extfsp.
   */
  lemma SizesOfFatVolume(ld: string, code: int, st: MountStats, fatVfs: StatVfs)
    requires MountPointId(ld) >= NUM_USB_LOGICAL_DRVS
    ensures TotalSize(ld, code, st) == BadIndex && FreeSize(ld, code, st) == BadIndex
    ensures UsedSize(ld, code, st, fatVfs) == Size(UsedBytes(fatVfs))
  {
  }

  // ---------------------------------------------------------------------
  // checkAvailable
  // ---------------------------------------------------------------------

  /**
   * checkAvailable(drv), where `driveConnected` is what msd[drv]'s driver
   * answers to connected(): None when drv is past msd[] or its drive
   * pointer is null.
   */
  function CheckAvailable(msd: seq<DrvType>, drv: nat, driveConnected: bool): (r: Option<bool>)
    ensures r.None? <==> drv >= |msd| || msd[drv].drive.None?
    ensures r == Some(true) <==> drv < |msd| && msd[drv].drive.Some? && driveConnected && msd[drv].mounted
  {
    if drv >= |msd| || msd[drv].drive.None? then None
    else if driveConnected && msd[drv].mounted then Some(true)
    else Some(false)
  }

  // ---------------------------------------------------------------------
  // Wildcards
  // ---------------------------------------------------------------------

  /** The character a C string pointer at index i reads: the terminator past the end. */
  function At(s: string, i: nat): char
  {
    if i < |s| then s[i] else '\0'
  }

  /**
   * Whether the pattern suffix p[i..] matches the name suffix s[j..]:
   * '*' matches any run of characters, '?' any one character.
   */
  predicate Glob(p: string, i: nat, s: string, j: nat)
    requires i <= |p| && j <= |s|
    decreases |p| - i + |s| - j
  {
    if i == |p| then j == |s|
    else if p[i] == '*' then Glob(p, i + 1, s, j) || (j < |s| && Glob(p, i, s, j + 1))
    else j < |s| && (p[i] == s[j] || p[i] == '?') && Glob(p, i + 1, s, j + 1)
  }

  predicate Matches(p: string, s: string)
  {
    Glob(p, 0, s, 0)
  }

  /** p[a..a+n] has no '*' and matches s[b..b+n] character by character. */
  ghost predicate RunMatches(p: string, a: nat, s: string, b: nat, n: nat)
    requires a + n <= |p| && b + n <= |s|
  {
    forall k :: a <= k < a + n ==> p[k] != '*' && (p[k] == s[k - a + b] || p[k] == '?')
  }

  /** Some suffix s[b'..] with b' >= b is matched by p[a..]. */
  predicate AnyFrom(p: string, a: nat, s: string, b: nat)
    requires a <= |p|
    decreases |s| + 1 - b
  {
    b <= |s| && (Glob(p, a, s, b) || AnyFrom(p, a, s, b + 1))
  }

  /** A matching star-free run can be stepped over. */
  lemma {:induction false} GlobShift(p: string, a: nat, s: string, b: nat, n: nat)
    requires a + n <= |p| && b + n <= |s| && RunMatches(p, a, s, b, n)
    ensures Glob(p, a, s, b) == Glob(p, a + n, s, b + n)
    decreases n
  {
    if n > 0 {
      assert p[a] != '*' && (p[a] == s[b] || p[a] == '?');
      assert Glob(p, a, s, b) == Glob(p, a + 1, s, b + 1);
      assert RunMatches(p, a + 1, s, b + 1, n - 1) by {
        forall k | a + 1 <= k < a + 1 + n - 1
          ensures p[k] != '*' && (p[k] == s[k - (a + 1) + (b + 1)] || p[k] == '?')
        {
          assert k - (a + 1) + (b + 1) == k - a + b;
        }
      }
      GlobShift(p, a + 1, s, b + 1, n - 1);
    }
  }

  /** A match through a star-free run consumes as many characters as the run and matches them one by one. */
  lemma {:induction false} GlobRunForward(p: string, a: nat, s: string, b: nat, n: nat)
    requires a + n <= |p| && b <= |s| && Glob(p, a, s, b)
    requires forall k :: a <= k < a + n ==> p[k] != '*'
    ensures b + n <= |s| && RunMatches(p, a, s, b, n) && Glob(p, a + n, s, b + n)
    decreases n
  {
    if n > 0 {
      assert p[a] != '*';
      assert b < |s| && (p[a] == s[b] || p[a] == '?') && Glob(p, a + 1, s, b + 1);
      GlobRunForward(p, a + 1, s, b + 1, n - 1);
      forall k | a <= k < a + n
        ensures p[k] != '*' && (p[k] == s[k - a + b] || p[k] == '?')
      {
        if k > a {
          assert k - (a + 1) + (b + 1) == k - a + b;
        }
      }
    }
  }

  /** A star matches here exactly when what follows it matches some suffix from here on. */
  lemma {:induction false} GlobStar(p: string, q: nat, s: string, b: nat)
    requires q < |p| && p[q] == '*' && b <= |s|
    ensures Glob(p, q, s, b) == AnyFrom(p, q + 1, s, b)
    decreases |s| - b
  {
    if b < |s| {
      GlobStar(p, q, s, b + 1);
    }
  }

  /** AnyFrom only gets easier further left. */
  lemma {:induction false} AnyFromMono(p: string, a: nat, s: string, b: nat, b': nat)
    requires a <= |p| && b <= b' && AnyFrom(p, a, s, b')
    ensures AnyFrom(p, a, s, b)
    decreases b' - b
  {
    if b < b' {
      AnyFromMono(p, a, s, b + 1, b');
    }
  }

  /** The empty pattern suffix matches the empty name suffix, so AnyFrom holds for it anywhere. */
  lemma {:induction false} AnyFromEnd(p: string, s: string, b: nat)
    requires b <= |s|
    ensures AnyFrom(p, |p|, s, b)
    decreases |s| - b
  {
    if b < |s| {
      AnyFromEnd(p, s, b + 1);
    }
  }

  /** A star-free run longer than what is left of the name matches nowhere. */
  lemma {:induction false} AnyFromTooShort(p: string, a: nat, s: string, b: nat, n: nat)
    requires a + n <= |p| && b + n > |s|
    requires forall k :: a <= k < a + n ==> p[k] != '*'
    ensures !AnyFrom(p, a, s, b)
    decreases |s| + 1 - b
  {
    if b <= |s| {
      if Glob(p, a, s, b) {
        GlobRunForward(p, a, s, b, n);
      }
      AnyFromTooShort(p, a, s, b + 1, n);
    }
  }

  /**
   * Committing to the earliest match of a star-free run before the next
   * star loses no matches: the run can be matched at the leftmost place.
   */
  lemma {:induction false} AnyFromCommit(p: string, mp: nat, q: nat, s: string, k0: nat)
    requires mp <= q < |p| && p[q] == '*'
    requires forall k :: mp <= k < q ==> p[k] != '*'
    requires AnyFrom(p, mp, s, k0)
    ensures AnyFrom(p, q + 1, s, k0 + (q - mp))
    decreases |s| + 1 - k0
  {
    if Glob(p, mp, s, k0) {
      GlobRunForward(p, mp, s, k0, q - mp);
      GlobStar(p, q, s, k0 + (q - mp));
    } else {
      AnyFromCommit(p, mp, q, s, k0 + 1);
      AnyFromMono(p, q + 1, s, k0 + (q - mp), k0 + 1 + (q - mp));
    }
  }

  /** The converse of AnyFromCommit, given the run matched at k0. */
  lemma AnyFromUncommit(p: string, mp: nat, q: nat, s: string, k0: nat)
    requires mp <= q < |p| && p[q] == '*' && k0 + (q - mp) <= |s|
    requires RunMatches(p, mp, s, k0, q - mp)
    requires AnyFrom(p, q + 1, s, k0 + (q - mp))
    ensures AnyFrom(p, mp, s, k0)
  {
    GlobStar(p, q, s, k0 + (q - mp));
    GlobShift(p, mp, s, k0, q - mp);
  }

  /** Reaching the next star moves the match point past it without losing or gaining a match. */
  lemma AnyFromStarStep(p: string, mp: nat, q: nat, s: string, k0: nat)
    requires mp <= q < |p| && p[q] == '*' && k0 + (q - mp) <= |s|
    requires RunMatches(p, mp, s, k0, q - mp)
    ensures AnyFrom(p, mp, s, k0) == AnyFrom(p, q + 1, s, k0 + (q - mp))
  {
    if AnyFrom(p, mp, s, k0) {
      AnyFromCommit(p, mp, q, s, k0);
    }
    if AnyFrom(p, q + 1, s, k0 + (q - mp)) {
      AnyFromUncommit(p, mp, q, s, k0);
    }
  }

  /** At a mismatch after a matched run, the run's start has to move one character right. */
  lemma AnyFromBacktrack(p: string, mp: nat, s: string, k0: nat, n: nat)
    requires mp + n <= |p| && k0 + n < |s| && RunMatches(p, mp, s, k0, n)
    requires mp + n == |p| || (p[mp + n] != '*' && p[mp + n] != s[k0 + n] && p[mp + n] != '?')
    ensures AnyFrom(p, mp, s, k0) == AnyFrom(p, mp, s, k0 + 1)
  {
    GlobShift(p, mp, s, k0, n);
  }

  /** Once the name is used up, AnyFrom reduces to matching the rest of the pattern against nothing. */
  lemma AnyFromAtEnd(p: string, mp: nat, s: string, k0: nat, n: nat)
    requires mp + n <= |p| && k0 + n == |s| && RunMatches(p, mp, s, k0, n)
    ensures AnyFrom(p, mp, s, k0) == Glob(p, mp + n, s, |s|)
  {
    GlobShift(p, mp, s, k0, n);
    AnyFromTooShort(p, mp, s, k0 + 1, n);
  }

  /**
   * wildcardMatch(pattern, filename): the two-pointer matcher. `mp` and `cp`
   * are matchPointer and charPointer as indices; it never backtracks
   * before a star has been seen.
   */
  method WildcardMatch(pattern: string, filename: string) returns (m: bool)
    requires '\0' !in pattern && '\0' !in filename
    ensures m == Matches(pattern, filename)
  {
    var ok, p := MatchLiteralPrefix(pattern, filename);
    if !ok {
      return false;
    }
    m := MatchFromStar(pattern, filename, p);
  }

  /**
   * wildcardMatch's first loop: compare character by character up to the
   * first '*' of the pattern or the end of the name; a mismatch means no match.
   */
  method MatchLiteralPrefix(pattern: string, filename: string) returns (ok: bool, p: nat)
    requires '\0' !in pattern && '\0' !in filename
    ensures !ok ==> !Matches(pattern, filename)
    ensures ok ==> p <= |filename| && p <= |pattern| && Matches(pattern, filename) == Glob(pattern, p, filename, p)
    ensures ok && p < |filename| ==> p < |pattern| && pattern[p] == '*'
  {
    p := 0;
    var f := 0;
    while f < |filename| && At(pattern, p) != '*'
      invariant p == f <= |filename| && p <= |pattern|
      invariant RunMatches(pattern, 0, filename, 0, p)
      decreases |filename| - f
    {
      if At(pattern, p) != filename[f] && At(pattern, p) != '?' {
        GlobShift(pattern, 0, filename, 0, p);
        return false, p;
      }
      p, f := p + 1, f + 1;
    }
    GlobShift(pattern, 0, filename, 0, p);
    return true, p;
  }

  /** wildcardMatch's remaining loops, from the first '*' on (or from the end of the name). */
  method MatchFromStar(pattern: string, filename: string, p0: nat) returns (m: bool)
    requires '\0' !in pattern && '\0' !in filename
    requires p0 <= |filename| && p0 <= |pattern| && Matches(pattern, filename) == Glob(pattern, p0, filename, p0)
    requires p0 < |filename| ==> p0 < |pattern| && pattern[p0] == '*'
    ensures m == Matches(pattern, filename)
  {
    var p, f := p0, p0;
    var mp, cp := 0, 0;
    ghost var starSeen := false;
    while f < |filename|
      invariant 0 <= p <= |pattern| && 0 <= f <= |filename|
      invariant !starSeen ==> p == f && cp == 0 && Matches(pattern, filename) == Glob(pattern, p, filename, f)
      invariant !starSeen && f < |filename| ==> p < |pattern| && pattern[p] == '*'
      invariant starSeen ==> 1 <= mp <= p && 1 <= cp <= f + 1 && f - (cp - 1) == p - mp
      invariant starSeen ==> RunMatches(pattern, mp, filename, cp - 1, p - mp)
      invariant starSeen ==> Matches(pattern, filename) == AnyFrom(pattern, mp, filename, cp - 1)
      decreases |filename| + 1 - cp, |filename| - f, |pattern| - p
    {
      if At(pattern, p) == '*' {
        if starSeen {
          AnyFromStarStep(pattern, mp, p, filename, cp - 1);
        } else {
          GlobStar(pattern, p, filename, f);
        }
        p := p + 1;
        if At(pattern, p) == '\0' {
          AnyFromEnd(pattern, filename, f);
          return true;
        }
        mp := p;
        cp := f + 1;
        starSeen := true;
      } else if At(pattern, p) == filename[f] || At(pattern, p) == '?' {
        p, f := p + 1, f + 1;
      } else {
        AnyFromBacktrack(pattern, mp, filename, cp - 1, p - mp);
        p := mp;
        f := cp;
        cp := cp + 1;
      }
    }
    if starSeen {
      AnyFromAtEnd(pattern, mp, filename, cp - 1, p - mp);
    }
    m := MatchTrailingStars(pattern, filename, p);
  }

  /** wildcardMatch's last loop: with the name used up, only '*'s may be left in the pattern. */
  method MatchTrailingStars(pattern: string, filename: string, p0: nat) returns (m: bool)
    requires '\0' !in pattern && p0 <= |pattern|
    requires Matches(pattern, filename) == Glob(pattern, p0, filename, |filename|)
    ensures m == Matches(pattern, filename)
  {
    var p := p0;
    while At(pattern, p) == '*'
      invariant p <= |pattern|
      invariant Matches(pattern, filename) == Glob(pattern, p, filename, |filename|)
      decreases |pattern| - p
    {
      p := p + 1;
    }
    return At(pattern, p) == '\0';
  }

  /** A lone star matches every name. */
  lemma StarMatchesAll(s: string)
    ensures Matches("*", s)
  {
    AnyFromEnd("*", s, 0);
    GlobStar("*", 0, s, 0);
  }

  /** A pattern without '*' matches exactly the names of its length that agree on every non-'?' character. */
  lemma StarFreeMatches(p: string, s: string)
    requires '*' !in p
    ensures Matches(p, s) <==> |p| == |s| && forall k :: 0 <= k < |p| ==> p[k] == s[k] || p[k] == '?'
  {
    if Matches(p, s) {
      GlobRunForward(p, 0, s, 0, |p|);
    }
    if |p| == |s| && forall k :: 0 <= k < |p| ==> p[k] == s[k] || p[k] == '?' {
      GlobShift(p, 0, s, 0, |p|);
    }
  }

  /** Stars only ever match the empty rest of a name. */
  lemma {:induction false} StarsMatchEmpty(p: string, i: nat, s: string)
    requires i <= |p|
    ensures Glob(p, i, s, |s|) <==> forall k :: i <= k < |p| ==> p[k] == '*'
    decreases |p| - i
  {
    if i < |p| {
      StarsMatchEmpty(p, i + 1, s);
    }
  }

  /** Trailing stars after a match extend it with an empty suffix. */
  lemma {:induction false} TrailingStars(p: string, t: string, i: nat, s: string, j: nat)
    requires i <= |p| && j <= |s| && Glob(p, i, s, j)
    requires forall k :: 0 <= k < |t| ==> t[k] == '*'
    ensures Glob(p + t, i, s, j)
    decreases |p| - i + |s| - j
  {
    var pt := p + t;
    if i == |p| {
      StarsMatchEmpty(pt, i, s);
    } else if p[i] == '*' {
      assert pt[i] == '*';
      if Glob(p, i + 1, s, j) {
        TrailingStars(p, t, i + 1, s, j);
      } else {
        TrailingStars(p, t, i, s, j + 1);
      }
    } else {
      assert pt[i] == p[i];
      TrailingStars(p, t, i + 1, s, j + 1);
    }
  }

  // ---------------------------------------------------------------------
  // getWildCard
  // ---------------------------------------------------------------------

  /** strlen: the index of the first terminator. */
  function CLen(a: seq<char>): (n: nat)
    requires '\0' in a
    ensures n < |a| && a[n] == '\0' && forall k :: 0 <= k < n ==> a[k] != '\0'
  {
    if a[0] == '\0' then 0 else 1 + CLen(a[1..])
  }

  /** The C string a buffer holds. */
  function CStr(a: seq<char>): (s: string)
    requires '\0' in a
    ensures |s| < |a| && '\0' !in s && s == a[..|s|] && a[|s|] == '\0'
  {
    a[..CLen(a)]
  }

  /** A buffer holding a string followed by a terminator holds that string. */
  lemma CStrOfTerminated(a: seq<char>, s: string)
    requires '\0' !in s && |s| < |a| && a[..|s|] == s && a[|s|] == '\0'
    ensures '\0' in a && CStr(a) == s
  {
    assert a[|s|] == '\0';
  }

  /**
   * Where getWildCard splits a path spec: at its last '/', or after the
   * first character when there is none.
   */
  function SplitIndex(s: string): (k: nat)
    requires |s| > 0
    ensures k < |s| && (k == 0 || s[k] == '/')
    ensures forall j :: k < j < |s| ==> s[j] != '/'
  {
    if s[|s| - 1] == '/' then |s| - 1
    else if |s| == 1 then 0
    else SplitIndex(s[..|s| - 1])
  }

  /** The split point is the last '/' when there is one; without one the first character stays in the spec. */
  lemma SplitIndexCases(s: string)
    requires |s| > 0
    ensures '/' in s ==> s[SplitIndex(s)] == '/' && '/' !in s[SplitIndex(s) + 1..]
    ensures '/' !in s ==> SplitIndex(s) == 0
  {
    var k := SplitIndex(s);
    if '/' in s && k == 0 && s[0] != '/' {
      var j :| 0 <= j < |s| && s[j] == '/';
    }
  }


  /** The backward scan of getWildCard from the terminator at `len` to the last '/' or index 0. */
  method FindSplit(specs: array<char>, len: nat) returns (index: nat)
    requires '\0' in specs[..] && len == |CStr(specs[..])| > 0
    ensures index == SplitIndex(CStr(specs[..]))
  {
    ghost var s := CStr(specs[..]);
    index := len;
    while specs[index] != '/' && index != 0
      invariant 0 <= index <= len
      invariant forall j :: index < j < len ==> s[j] != '/'
      decreases index
    {
      index := index - 1;
    }
    assert index < len && (index > 0 ==> s[index] == '/');
  }

  /** memcpy(dst, src + from, n). */
  method CopyRun(src: array<char>, dst: array<char>, from: nat, n: nat)
    requires src != dst && from + n <= src.Length && n <= dst.Length
    modifies dst
    ensures dst[..] == src[from..from + n] + old(dst[..])[n..]
  {
    var i := 0;
    while i < n
      invariant 0 <= i <= n
      invariant dst[..i] == src[from..from + i]
      invariant dst[i..] == old(dst[..])[i..]
    {
      dst[i] := src[from + i];
      i := i + 1;
      assert dst[..i] == dst[..i - 1] + [dst[i - 1]];
    }
  }

  /** The buffers getWildCard leaves, split at k, hold the two parts of s. */
  lemma WildCardBuffers(a: seq<char>, b: seq<char>, s: string, k: nat)
    requires '\0' !in s && k < |s| < |a| && a[..|s|] == s && a[|s|] == '\0'
    requires |b| >= |s| - k + 1 && b[..|s| - k + 1] == s[k + 1..] + ['\0', '\0']
    ensures '\0' in a[k + 1 := '\0'] && CStr(a[k + 1 := '\0']) == s[..k + 1]
    ensures '\0' in b && CStr(b) == s[k + 1..]
  {
    CStrOfTerminated(a[k + 1 := '\0'], s[..k + 1]);
    assert b[..|s| - k - 1] == s[k + 1..];
    CStrOfTerminated(b, s[k + 1..]);
  }

  /**
   * getWildCard(specs, pattern): cut the spec after the split point and
   * copy the part after it, with its terminator and one more, into
   * `pattern`.
   */
  method GetWildCard(specs: array<char>, pattern: array<char>) returns (found: bool)
    requires specs != pattern && '\0' in specs[..]
    requires var s := CStr(specs[..]); |s| > 0 && '.' in s ==> pattern.Length > |s| - SplitIndex(s)
    modifies specs, pattern
    ensures var s := CStr(old(specs[..]));
      if |s| == 0 || '.' !in s then
        !found && specs[..] == old(specs[..]) && pattern[..] == old(pattern[..])
      else
        var k := SplitIndex(s);
        specs[..] == old(specs[..])[k + 1 := '\0'] &&
        pattern[..] == s[k + 1..] + ['\0', '\0'] + old(pattern[..])[|s| - k + 1..] &&
        '\0' in specs[..] && '\0' in pattern[..] &&
        CStr(specs[..]) + CStr(pattern[..]) == s && CStr(pattern[..]) == s[k + 1..] &&
        (found <==> CStr(pattern[..]) != [])
  {
    var len := CLen(specs[..]);
    if len == 0 || '.' !in specs[..len] {
      return false;
    }
    found := CutAtSplit(specs, pattern, len);
  }

  /** getWildCard once the spec holds a '.': cut it after the split point and copy the rest into pattern. */
  method CutAtSplit(specs: array<char>, pattern: array<char>, len: nat) returns (found: bool)
    requires specs != pattern && '\0' in specs[..] && len == |CStr(specs[..])| > 0
    requires pattern.Length > len - SplitIndex(CStr(specs[..]))
    modifies specs, pattern
    ensures var s := CStr(old(specs[..]));
      var k := SplitIndex(s);
      specs[..] == old(specs[..])[k + 1 := '\0'] &&
      pattern[..] == s[k + 1..] + ['\0', '\0'] + old(pattern[..])[|s| - k + 1..] &&
      '\0' in specs[..] && '\0' in pattern[..] &&
      CStr(specs[..]) + CStr(pattern[..]) == s && CStr(pattern[..]) == s[k + 1..] &&
      (found <==> CStr(pattern[..]) != [])
  {
    ghost var s, a0, b0 := CStr(specs[..]), specs[..], pattern[..];
    var index := FindSplit(specs, len);
    var count := len - index;
    CopyRun(specs, pattern, index + 1, count);
    ghost var b1 := pattern[..];
    pattern[count] := '\0';
    assert pattern[..] == b1[count := '\0'];
    specs[index + 1] := '\0';
    assert specs[..] == a0[index + 1 := '\0'];
    PatternAfterCopy(a0, b0, s, index);
    WildCardSplit(a0, b0, s, index);
    found := pattern[0] != '\0';
  }

  /** Copying the spec from k + 1 through its terminator and writing one more NUL leaves the pattern doubly terminated. */
  lemma PatternAfterCopy(a: seq<char>, b: seq<char>, s: string, k: nat)
    requires k < |s| < |a| && a[..|s|] == s && a[|s|] == '\0' && |b| > |s| - k
    ensures (a[k + 1..|s| + 1] + b[|s| - k..])[|s| - k := '\0'] == s[k + 1..] + ['\0', '\0'] + b[|s| - k + 1..]
  {
    assert a[k + 1..|s| + 1] == s[k + 1..] + ['\0'];
  }

  /** The buffers getWildCard leaves: the spec cut after the split point, and the pattern after it. */
  lemma WildCardSplit(a: seq<char>, b: seq<char>, s: string, k: nat)
    requires '\0' !in s && k < |s| < |a| && a[..|s|] == s && a[|s|] == '\0' && |b| >= |s| - k + 1
    ensures var a1, b1 := a[k + 1 := '\0'], s[k + 1..] + ['\0', '\0'] + b[|s| - k + 1..];
      '\0' in a1 && '\0' in b1 && CStr(a1) + CStr(b1) == s && CStr(b1) == s[k + 1..] &&
      (b1[0] != '\0' <==> CStr(b1) != [])
  {
    var b1 := s[k + 1..] + ['\0', '\0'] + b[|s| - k + 1..];
    assert b1[..|s| - k + 1] == s[k + 1..] + ['\0', '\0'];
    WildCardBuffers(a, b1, s, k);
    assert s[..k + 1] + s[k + 1..] == s;
  }

  // ---------------------------------------------------------------------
  // The drive lifecycle, on values
  // ---------------------------------------------------------------------

  /**
   * A USB mass-storage drive as the lifecycle sees it: what connected()
   * answers at poll k (polls[k], false past the end), what it answers when
   * init_block_device asks, what init() answers inside get_fs_type, and
   * what the MBR scans find.
   */
  datatype UsbDrive = UsbDrive(handle: DriveRef, polls: seq<bool>, atInit: bool, initCode: int, mbr: MbrScan)

  predicate Connected(d: UsbDrive, k: nat)
  {
    k < |d.polls| && d.polls[k]
  }

  /** The polling loop from poll k on, with `budget` failed polls left before the timeout. */
  predicate ConnectsWithin(d: UsbDrive, k: nat, budget: nat)
    decreases budget
  {
    Connected(d, k) || (budget > 0 && ConnectsWithin(d, k + 1, budget - 1))
  }

  /** The loop succeeds exactly when one of the polls k .. k + budget finds the drive. */
  lemma {:induction false} ConnectsWithinIff(d: UsbDrive, k: nat, budget: nat)
    ensures ConnectsWithin(d, k, budget) <==> exists j :: k <= j <= k + budget && Connected(d, j)
    decreases budget
  {
    if budget > 0 {
      ConnectsWithinIff(d, k + 1, budget - 1);
      if !Connected(d, k) && exists j :: k <= j <= k + budget && Connected(d, j) {
        var j :| k <= j <= k + budget && Connected(d, j);
        assert k + 1 <= j;
      }
    }
  }

  /** msd[], the registries, _extfs and the four instances extfsp[0..3], as values. */
  datatype World = World(msd: seq<DrvType>, s: RegState, slots: seq<Option<DriveRef>>, inst: seq<InstState>)

  datatype WorldOutcome = WorldOutcome(w: World, code: int)

  predicate Shape(w: World)
  {
    |w.msd| == NUM_DRIVES && WellFormed(w.s) && |w.slots| == MAX_MOUNT_POINTS && |w.inst| == MAX_MOUNT_POINTS &&
    forall k :: 0 <= k < MAX_MOUNT_POINTS ==> -1 <= w.inst[k].id < MAX_MOUNT_POINTS
  }

  function Ids(w: World): seq<int>
    requires |w.inst| == MAX_MOUNT_POINTS
  {
    [w.inst[0].id, w.inst[1].id, w.inst[2].id, w.inst[3].id]
  }

  /** A drive record whose drive pointer is null is the default record. */
  predicate RecordsOk(msd: seq<DrvType>)
  {
    forall k :: 0 <= k < |msd| ==> msd[k].drive.None? ==> msd[k] == DEFAULT_DRV_TYPE
  }

  /** What the lifecycle keeps true: the slot table is consistent and null drives have default records. */
  ghost predicate WorldValid(w: World)
  {
    Shape(w) && SlotsConsistent(w.slots, Ids(w)) && RecordsOk(w.msd)
  }

  /**
   * connectInitialized(d, index), with `timeout` failed polls allowed;
   * get_fs_type and init_block_device(d, 0) run on extfsp[0]'s driver.
   */
  function ConnectSpec(w: World, d: UsbDrive, index: nat, timeout: nat): (r: (World, bool))
    requires Shape(w) && index < NUM_DRIVES && WellFormedScan(d.mbr)
    ensures Shape(r.0) && r.0.slots == w.slots && r.0.inst == w.inst && r.0.s.count == w.s.count
    ensures forall k :: 0 <= k < NUM_DRIVES && k != index ==> r.0.msd[k] == w.msd[k]
  {
    var rec := w.msd[index];
    if Connected(d, 0) && rec.mounted then (w, true)
    else if !ConnectsWithin(d, 1, timeout) then (w.(msd := w.msd[index := DEFAULT_DRV_TYPE]), false)
    else
      var t := GetFsTypeSpec(w.s, d.handle, d.initCode, d.mbr);
      var found := rec.(drive := Some(d.handle), fsType := t.code, connected := true);
      if t.code == EXT4_TYPE then
        var ib := InitBlockDeviceSpec(t.s, d.handle, 0, d.atInit, d.mbr);
        if ib.code == EOK then (w.(msd := w.msd[index := found.(initialized := true)], s := ib.s), true)
        else (w.(msd := w.msd[index := DEFAULT_DRV_TYPE], s := ib.s), true)
      else if t.code == FAT32_TYPE then (w.(msd := w.msd[index := found], s := t.s), true)
      else (w.(msd := w.msd[index := DEFAULT_DRV_TYPE], s := t.s), true)
  }

  /**
   * mountDrives' ext4 loop from partition i on: instance i mounts when
   * entry i is an unmounted ext4 partition; the first failure stops it.
   */
  function MountLoop(w: World, index: nat, drivers: seq<PartDriver>, i: nat): (o: WorldOutcome)
    requires Shape(w) && index < NUM_DRIVES && |drivers| == MAX_MOUNT_POINTS && i <= MAX_MOUNT_POINTS
    ensures Shape(o.w) && o.w.s.count == w.s.count && o.w.s.bd == w.s.bd
    ensures forall k :: 0 <= k < NUM_DRIVES && k != index ==> o.w.msd[k] == w.msd[k]
    ensures o.w.msd[index] == w.msd[index].(mounted := o.w.msd[index].mounted)
    decreases MAX_MOUNT_POINTS - i
  {
    if i == MAX_MOUNT_POINTS then WorldOutcome(w, EOK)
    else if w.s.ml[i].pt == EXT4_TYPE && !w.s.ml[i].mounted then
      var e := MountAt(w, i, w.msd[index].drive, drivers);
      if e.code != EOK then WorldOutcome(e.w.(msd := w.msd[index := w.msd[index].(mounted := false)]), e.code)
      else MountLoop(e.w.(msd := w.msd[index := w.msd[index].(mounted := true)]), index, drivers, i + 1)
    else MountLoop(w, index, drivers, i + 1)
  }

  /** extfsp[i]->mount(bd) on the world. */
  function MountAt(w: World, i: nat, bd: Option<DriveRef>, drivers: seq<PartDriver>): (o: WorldOutcome)
    requires Shape(w) && i < MAX_MOUNT_POINTS && |drivers| == MAX_MOUNT_POINTS
    ensures Shape(o.w) && o.w.msd == w.msd && o.w.s.count == w.s.count && o.w.s.bd == w.s.bd
  {
    var e := ExtMountSpec(w.s, w.slots, w.inst[i], bd, drivers);
    WorldOutcome(w.(s := e.s, slots := e.slots, inst := w.inst[i := e.inst]), e.code)
  }

  /** extfsp[i]->unmount() on the world, where the block device's deinit() answers `deinitCode`. */
  function UnmountAt(w: World, i: nat, drivers: seq<PartDriver>, deinitCode: int): (o: WorldOutcome)
    requires Shape(w) && i < MAX_MOUNT_POINTS && |drivers| == MAX_MOUNT_POINTS
    ensures Shape(o.w) && o.w.msd == w.msd && o.w.s.count == w.s.count
  {
    var e := ExtUnmountSpec(w.s, w.slots, w.inst[i], drivers, deinitCode);
    WorldOutcome(w.(s := e.s, slots := e.slots, inst := w.inst[i := e.inst]), e.code)
  }

  /**
   * mountDrives(d, index): `drivers[j]` answers for partition j and
   * `fatCode` is what the FAT driver's mount returns.
   */
  function MountDrivesSpec(w: World, d: UsbDrive, index: nat, timeout: nat, drivers: seq<PartDriver>,
                           fatCode: int): (o: WorldOutcome)
    requires Shape(w) && index < NUM_DRIVES && WellFormedScan(d.mbr) && |drivers| == MAX_MOUNT_POINTS
    ensures Shape(o.w) && o.w.s.count == w.s.count
  {
    var (w1, ok) := ConnectSpec(w, d, index, timeout);
    if !ok then WorldOutcome(w1, ENODEV)
    else
      var m := if w1.msd[index].fsType == EXT4_TYPE then MountLoop(w1, index, drivers, 0) else WorldOutcome(w1, EOK);
      if m.code != EOK then m
      else if m.w.msd[index].fsType == FAT32_TYPE && fatCode != EOK then WorldOutcome(m.w, ENOTSUP)
      else
        var w2 := if m.w.msd[index].fsType == FAT32_TYPE
          then m.w.(msd := m.w.msd[index := m.w.msd[index].(initialized := true, mounted := true)])
          else m.w;
        if w2.msd[index].mounted then WorldOutcome(w2, EOK) else WorldOutcome(w2, ENOTSUP)
  }

  /**
   * umountDrives' ext4 loop from partition i on: instance i unmounts when
   * entry i is mounted, and entry i is cleared either way; `result` is the
   * last unmount's code.
   */
  function UmountLoop(w: World, drivers: seq<PartDriver>, deinit: seq<int>, i: nat, result: int): (o: WorldOutcome)
    requires Shape(w) && |drivers| == MAX_MOUNT_POINTS && |deinit| == MAX_MOUNT_POINTS && i <= MAX_MOUNT_POINTS
    ensures Shape(o.w) && o.w.msd == w.msd && o.w.s.count == w.s.count
    decreases MAX_MOUNT_POINTS - i
  {
    if i == MAX_MOUNT_POINTS then WorldOutcome(w, result)
    else
      var u := UmountStep(w, drivers, deinit, i, result);
      UmountLoop(u.w.(s := ClrMl(u.w.s, i)), drivers, deinit, i + 1, u.code)
  }

  /** umountDrives' ext4 branch: the partition loop, then clr_BDL_entry(SDA). */
  function UmountExt4Spec(w: World, drivers: seq<PartDriver>, deinit: seq<int>): (o: WorldOutcome)
    requires Shape(w) && |drivers| == MAX_MOUNT_POINTS && |deinit| == MAX_MOUNT_POINTS
    ensures Shape(o.w) && o.w.msd == w.msd && o.w.s.count == w.s.count
  {
    var o := UmountLoop(w, drivers, deinit, 0, EOK);
    WorldOutcome(o.w.(s := ClrBdl(o.w.s, SDA)), o.code)
  }

  /**
   * umountDrives(index): `deinit[i]` is what instance i's block device
   * deinit() returns and `fatCode` what the FAT driver's unmount returns.
   */
  function UmountDrivesSpec(w: World, index: nat, drivers: seq<PartDriver>, deinit: seq<int>, fatCode: int): (o: WorldOutcome)
    requires Shape(w) && index < NUM_DRIVES && |drivers| == MAX_MOUNT_POINTS && |deinit| == MAX_MOUNT_POINTS
    ensures Shape(o.w) && o.w.s.count == w.s.count
  {
    var u := if w.msd[index].fsType == EXT4_TYPE then UmountExt4Spec(w, drivers, deinit) else WorldOutcome(w, EOK);
    var code := if w.msd[index].fsType == FAT32_TYPE then fatCode else u.code;
    WorldOutcome(u.w.(msd := u.w.msd[index := DEFAULT_DRV_TYPE]), code)
  }

  // ---------------------------------------------------------------------
  // Properties of the drive lifecycle
  // ---------------------------------------------------------------------

  /**
   * connectInitialized's outcomes: it fails only when the drive never
   * connects within the budget, and then resets the record and touches
   * nothing else; otherwise it answers true, even when the drive could not
   * be initialized. An ext4 drive whose init_block_device succeeds is
   * recorded connected and initialized, one whose init fails resets the
   * record; a FAT32 drive is recorded connected with its other fields
   * kept; any other type resets the record.
   */
  lemma ConnectResult(w: World, d: UsbDrive, index: nat, timeout: nat)
    requires Shape(w) && index < NUM_DRIVES && WellFormedScan(d.mbr)
    ensures var (w', ok) := ConnectSpec(w, d, index, timeout);
      var already := Connected(d, 0) && w.msd[index].mounted;
      var rec := w'.msd[index];
      (already ==> ok && w' == w) &&
      (!ok <==> !already && !ConnectsWithin(d, 1, timeout)) &&
      (!ok ==> rec == DEFAULT_DRV_TYPE && w'.s == w.s) &&
      (ok && !already ==>
         var t := GetFsTypeSpec(w.s, d.handle, d.initCode, d.mbr);
         var ib := InitBlockDeviceSpec(t.s, d.handle, 0, d.atInit, d.mbr);
         var found := w.msd[index].(drive := Some(d.handle), fsType := t.code, connected := true);
         (t.code == EXT4_TYPE && ib.code == EOK ==>
            rec == found.(initialized := true) && rec.fsType == EXT4_TYPE && w'.s == ib.s) &&
         (t.code == EXT4_TYPE && ib.code != EOK ==> rec == DEFAULT_DRV_TYPE && w'.s == ib.s) &&
         (t.code == FAT32_TYPE ==> rec == found && w'.s == t.s) &&
         (t.code != EXT4_TYPE && t.code != FAT32_TYPE ==> rec == DEFAULT_DRV_TYPE && w'.s == t.s))
  {
  }

  /**
   * init_block_device(drv, 0) only accepts slot 0 when there are at least
   * two device slots, so with one slot an ext4 drive is never kept.
   */
  lemma SingleSlotDropsExt4(w: World, d: UsbDrive, index: nat, timeout: nat)
    requires Shape(w) && index < NUM_DRIVES && WellFormedScan(d.mbr) && w.s.count == 1
    requires !(Connected(d, 0) && w.msd[index].mounted)
    ensures ConnectSpec(w, d, index, timeout).0.msd[index].fsType != EXT4_TYPE
  {
  }

  lemma ConnectKeepsValid(w: World, d: UsbDrive, index: nat, timeout: nat)
    requires WorldValid(w) && index < NUM_DRIVES && WellFormedScan(d.mbr)
    ensures WorldValid(ConnectSpec(w, d, index, timeout).0)
  {
    var w' := ConnectSpec(w, d, index, timeout).0;
    assert Ids(w') == Ids(w);
  }

  /** Every partition driver step succeeds. */
  predicate Succeeds(d: PartDriver)
  {
    d.registerCode == EOK && d.mountCode == EOK && d.recoverCode == EOK && d.statsCode == EOK
  }

  /** One instance mounting a non-null drive keeps the world valid. */
  lemma MountAtKeepsValid(w: World, i: nat, bd: Option<DriveRef>, drivers: seq<PartDriver>)
    requires WorldValid(w) && i < MAX_MOUNT_POINTS && |drivers| == MAX_MOUNT_POINTS && bd.Some?
    ensures WorldValid(MountAt(w, i, bd, drivers).w)
  {
    var e := ExtMountSpec(w.s, w.slots, w.inst[i], bd, drivers);
    ExtMountKeepsConsistent(w.s, w.slots, Ids(w), i, w.inst[i].g, bd, drivers);
    assert Ids(MountAt(w, i, bd, drivers).w) == Ids(w)[i := e.inst.id];
  }

  /** One instance unmounting keeps the world valid. */
  lemma UnmountAtKeepsValid(w: World, i: nat, drivers: seq<PartDriver>, deinitCode: int)
    requires WorldValid(w) && i < MAX_MOUNT_POINTS && |drivers| == MAX_MOUNT_POINTS
    ensures WorldValid(UnmountAt(w, i, drivers, deinitCode).w)
  {
    ExtUnmountKeepsConsistent(w.s, w.slots, Ids(w), i, w.inst[i].g, drivers, deinitCode);
    assert Ids(UnmountAt(w, i, drivers, deinitCode).w) == Ids(w)[i := -1];
  }

  /** Changing a drive record that holds a drive keeps the world valid. */
  lemma RecordUpdateKeepsValid(w: World, index: nat, rec: DrvType)
    requires WorldValid(w) && index < NUM_DRIVES && rec.drive.Some?
    ensures WorldValid(w.(msd := w.msd[index := rec]))
  {
    assert Ids(w.(msd := w.msd[index := rec])) == Ids(w);
  }

  /** With a non-null drive, the mount loop keeps the world valid. */
  lemma {:induction false} MountLoopKeepsValid(w: World, index: nat, drivers: seq<PartDriver>, i: nat)
    requires WorldValid(w) && index < NUM_DRIVES && |drivers| == MAX_MOUNT_POINTS && i <= MAX_MOUNT_POINTS
    requires w.msd[index].drive.Some?
    ensures WorldValid(MountLoop(w, index, drivers, i).w)
    decreases MAX_MOUNT_POINTS - i
  {
    if i < MAX_MOUNT_POINTS {
      if w.s.ml[i].pt == EXT4_TYPE && !w.s.ml[i].mounted {
        var e := MountAt(w, i, w.msd[index].drive, drivers);
        MountAtKeepsValid(w, i, w.msd[index].drive, drivers);
        RecordUpdateKeepsValid(e.w, index, w.msd[index].(mounted := e.code == EOK));
        if e.code == EOK {
          MountLoopKeepsValid(e.w.(msd := w.msd[index := w.msd[index].(mounted := true)]), index, drivers, i + 1);
        }
      } else {
        MountLoopKeepsValid(w, index, drivers, i + 1);
      }
    }
  }

  /**
   * An instance without a slot, mounting when slot i is the first free one
   * and partition i is an available ext4 partition whose driver succeeds,
   * claims slot i and mounts entry i, and changes no other slot or entry.
   */
  lemma MountAtFree(w: World, i: nat, bd: Option<DriveRef>, drivers: seq<PartDriver>)
    requires Shape(w) && i < MAX_MOUNT_POINTS && |drivers| == MAX_MOUNT_POINTS
    requires (forall j :: 0 <= j < i ==> w.slots[j].Some?) && w.slots[i].None? && w.inst[i].id == -1
    requires w.s.ml[i].pt == EXT4_TYPE && w.s.ml[i].available && !w.s.ml[i].mounted && Succeeds(drivers[i])
    ensures var e := MountAt(w, i, bd, drivers);
      e.code == EOK && e.w.inst[i].id == i && e.w.s.ml[i].mounted &&
      e.w.slots == w.slots[i := bd] && e.w.inst == w.inst[i := e.w.inst[i]] &&
      forall j :: 0 <= j < MAX_MOUNT_POINTS && j != i ==> e.w.s.ml[j] == w.s.ml[j]
  {
    FirstFreeAt(w.slots, i);
  }

  /** The first free slot is the free slot with only taken slots before it. */
  lemma FirstFreeAt(slots: seq<Option<DriveRef>>, i: nat)
    requires i < |slots| && slots[i].None? && forall j :: 0 <= j < i ==> slots[j].Some?
    ensures FirstFree(slots) == i
  {
    var j := FirstFree(slots);
    assert j != -1 ==> slots[j].None?;
  }

  /**
   * The mount loop from partition i on leaves the instances before i alone,
   * and every claimed slot and its mount entry as they were.
   */
  lemma {:induction false} MountLoopFrame(w: World, index: nat, drivers: seq<PartDriver>, i: nat)
    requires Shape(w) && index < NUM_DRIVES && |drivers| == MAX_MOUNT_POINTS && i <= MAX_MOUNT_POINTS
    ensures var o := MountLoop(w, index, drivers, i);
      (forall k :: 0 <= k < i ==> o.w.inst[k] == w.inst[k]) &&
      (forall j :: 0 <= j < MAX_MOUNT_POINTS && w.slots[j].Some? ==>
         o.w.slots[j] == w.slots[j] && o.w.s.ml[j] == w.s.ml[j])
    decreases MAX_MOUNT_POINTS - i
  {
    if i < MAX_MOUNT_POINTS {
      if w.s.ml[i].pt == EXT4_TYPE && !w.s.ml[i].mounted {
        var e := MountAt(w, i, w.msd[index].drive, drivers);
        if e.code == EOK {
          MountLoopFrame(e.w.(msd := w.msd[index := w.msd[index].(mounted := true)]), index, drivers, i + 1);
        }
      } else {
        MountLoopFrame(w, index, drivers, i + 1);
      }
    }
  }

  /**
   * When every partition from i on is an available, unmounted ext4
   * partition whose driver succeeds, and the instances from i on hold no
   * slot while the slots before i are taken, instance j mounts partition j
   * for every j from i on, in increasing order, and the loop answers EOK.
   */
  lemma {:induction false} MountLoopInOrder(w: World, index: nat, drivers: seq<PartDriver>, i: nat)
    requires Shape(w) && index < NUM_DRIVES && |drivers| == MAX_MOUNT_POINTS && i <= MAX_MOUNT_POINTS
    requires w.msd[index].drive.Some?
    requires forall j :: 0 <= j < i ==> w.slots[j].Some?
    requires forall j :: i <= j < MAX_MOUNT_POINTS ==>
      w.slots[j].None? && w.inst[j].id == -1 && w.s.ml[j].pt == EXT4_TYPE && w.s.ml[j].available &&
      !w.s.ml[j].mounted && Succeeds(drivers[j])
    ensures var o := MountLoop(w, index, drivers, i);
      o.code == EOK && (i < MAX_MOUNT_POINTS ==> o.w.msd[index].mounted) &&
      forall j :: i <= j < MAX_MOUNT_POINTS ==>
        o.w.inst[j].id == j && o.w.s.ml[j].mounted && o.w.slots[j] == w.msd[index].drive
    decreases MAX_MOUNT_POINTS - i
  {
    if i < MAX_MOUNT_POINTS {
      MountAtFree(w, i, w.msd[index].drive, drivers);
      var e := MountAt(w, i, w.msd[index].drive, drivers);
      var w2 := e.w.(msd := w.msd[index := w.msd[index].(mounted := true)]);
      MountLoopInOrder(w2, index, drivers, i + 1);
      MountLoopFrame(w2, index, drivers, i + 1);
      var o := MountLoop(w, index, drivers, i);
      assert o == MountLoop(w2, index, drivers, i + 1);
      assert o.w.inst[i] == w2.inst[i] && w2.slots[i].Some?;
    }
  }

  /**
   * Instance i mounts the partition of the first free slot, not partition
   * i: with partition 0 not ext4 and partition 1 an unmounted ext4
   * partition, instance 1 claims slot 0 and mounts partition 0.
   */
  lemma MountLoopMisroutes(w: World, index: nat, drivers: seq<PartDriver>)
    requires Shape(w) && index < NUM_DRIVES && |drivers| == MAX_MOUNT_POINTS && w.msd[index].drive.Some?
    requires forall j :: 0 <= j < MAX_MOUNT_POINTS ==> w.slots[j].None? && w.inst[j].id == -1
    requires w.s.ml[0].pt != EXT4_TYPE && w.s.ml[1].pt == EXT4_TYPE && !w.s.ml[1].mounted
    requires w.s.ml[0].available && Succeeds(drivers[0])
    ensures var o := MountLoop(w, index, drivers, 0);
      o.w.inst[1].id == 0 && o.w.slots[0] == w.msd[index].drive && o.w.s.ml[0].mounted
  {
    assert MountLoop(w, index, drivers, 0) == MountLoop(w, index, drivers, 1);
    FirstFreeAt(w.slots, 0);
    var e := MountAt(w, 1, w.msd[index].drive, drivers);
    assert e.code == EOK && e.w.s.ml[0].mounted && e.w.inst[1].id == 0;
    MountLoopFrame(e.w.(msd := w.msd[index := w.msd[index].(mounted := true)]), index, drivers, 2);
  }

  /** Partition i is one the mount loop tries, and its instance's mount fails. */
  predicate MountFails(w: World, index: nat, drivers: seq<PartDriver>, i: nat)
    requires Shape(w) && index < NUM_DRIVES && |drivers| == MAX_MOUNT_POINTS && i < MAX_MOUNT_POINTS
  {
    w.s.ml[i].pt == EXT4_TYPE && !w.s.ml[i].mounted && MountAt(w, i, w.msd[index].drive, drivers).code != EOK
  }

  /** The world after partition i when its mount, if tried, succeeds. */
  function MountNext(w: World, index: nat, drivers: seq<PartDriver>, i: nat): (r: World)
    requires Shape(w) && index < NUM_DRIVES && |drivers| == MAX_MOUNT_POINTS && i < MAX_MOUNT_POINTS
    ensures Shape(r) && r.msd[index].drive == w.msd[index].drive
    ensures forall k :: 0 <= k < NUM_DRIVES && k != index ==> r.msd[k] == w.msd[k]
  {
    if w.s.ml[i].pt == EXT4_TYPE && !w.s.ml[i].mounted then
      MountAt(w, i, w.msd[index].drive, drivers).w.(msd := w.msd[index := w.msd[index].(mounted := true)])
    else w
  }

  /** The world the mount loop started at i reaches at partition j when nothing fails before j. */
  function Reached(w: World, index: nat, drivers: seq<PartDriver>, i: nat, j: nat): (r: World)
    requires Shape(w) && index < NUM_DRIVES && |drivers| == MAX_MOUNT_POINTS && i <= j <= MAX_MOUNT_POINTS
    ensures Shape(r)
    decreases j - i
  {
    if i == j then w else Reached(MountNext(w, index, drivers, i), index, drivers, i + 1, j)
  }

  /** The first partition from i on whose mount fails, or MAX_MOUNT_POINTS when none does. */
  function FirstMountFailure(w: World, index: nat, drivers: seq<PartDriver>, i: nat): (f: nat)
    requires Shape(w) && index < NUM_DRIVES && |drivers| == MAX_MOUNT_POINTS && i <= MAX_MOUNT_POINTS
    ensures i <= f <= MAX_MOUNT_POINTS
    ensures f < MAX_MOUNT_POINTS ==> MountFails(Reached(w, index, drivers, i, f), index, drivers, f)
    ensures forall j :: i <= j < f ==> !MountFails(Reached(w, index, drivers, i, j), index, drivers, j)
    decreases MAX_MOUNT_POINTS - i
  {
    if i == MAX_MOUNT_POINTS then MAX_MOUNT_POINTS
    else if MountFails(w, index, drivers, i) then i
    else
      var w' := MountNext(w, index, drivers, i);
      assert forall j :: i < j <= MAX_MOUNT_POINTS ==> Reached(w, index, drivers, i, j) == Reached(w', index, drivers, i + 1, j);
      FirstMountFailure(w', index, drivers, i + 1)
  }

  /**
   * The mount loop stops at the first partition whose mount fails and
   * returns that mount's code, with the drive record marked unmounted and
   * nothing after it tried; when no mount fails it answers EOK.
   */
  lemma {:induction false} MountLoopFailure(w: World, index: nat, drivers: seq<PartDriver>, i: nat)
    requires Shape(w) && index < NUM_DRIVES && |drivers| == MAX_MOUNT_POINTS && i <= MAX_MOUNT_POINTS
    ensures var o := MountLoop(w, index, drivers, i); var f := FirstMountFailure(w, index, drivers, i);
      (o.code == EOK <==> f == MAX_MOUNT_POINTS) &&
      (f == MAX_MOUNT_POINTS ==> o.w == Reached(w, index, drivers, i, f)) &&
      (f < MAX_MOUNT_POINTS ==>
         var v := Reached(w, index, drivers, i, f); var e := MountAt(v, f, v.msd[index].drive, drivers);
         o.code == e.code && o.w == e.w.(msd := v.msd[index := v.msd[index].(mounted := false)]) &&
         o.w.msd[index] == w.msd[index].(mounted := false))
    decreases MAX_MOUNT_POINTS - i
  {
    if i < MAX_MOUNT_POINTS && !MountFails(w, index, drivers, i) {
      var w' := MountNext(w, index, drivers, i);
      MountLoopFailure(w', index, drivers, i + 1);
      assert MountLoop(w, index, drivers, i) == MountLoop(w', index, drivers, i + 1);
      assert FirstMountFailure(w, index, drivers, i) == FirstMountFailure(w', index, drivers, i + 1);
      assert forall j :: i < j <= MAX_MOUNT_POINTS ==> Reached(w, index, drivers, i, j) == Reached(w', index, drivers, i + 1, j);
    }
  }

  /**
   * mountDrives' outcomes: ENODEV when the drive does not connect; for
   * ext4, the first failing partition mount's code with the record marked
   * unmounted, else EOK when the record ends mounted and ENOTSUP when it
   * does not; for FAT32, EOK with the record mounted and initialized or
   * ENOTSUP when the FAT mount fails; for any other type, ENOTSUP unless
   * the record was already mounted.
   */
  lemma MountDrivesResult(w: World, d: UsbDrive, index: nat, timeout: nat, drivers: seq<PartDriver>, fatCode: int)
    requires Shape(w) && index < NUM_DRIVES && WellFormedScan(d.mbr) && |drivers| == MAX_MOUNT_POINTS
    ensures var o := MountDrivesSpec(w, d, index, timeout, drivers, fatCode);
      var (w1, ok) := ConnectSpec(w, d, index, timeout);
      (!ok ==> o == WorldOutcome(w1, ENODEV)) &&
      (o.code == EOK ==> o.w.msd[index].mounted) &&
      (ok && w1.msd[index].fsType != EXT4_TYPE && w1.msd[index].fsType != FAT32_TYPE ==>
         o == WorldOutcome(w1, if w1.msd[index].mounted then EOK else ENOTSUP)) &&
      (ok && w1.msd[index].fsType == EXT4_TYPE ==>
         var m := MountLoop(w1, index, drivers, 0);
         (m.code != EOK ==> o == m && !o.w.msd[index].mounted) &&
         (m.code == EOK ==> o == WorldOutcome(m.w, if m.w.msd[index].mounted then EOK else ENOTSUP))) &&
      (ok && w1.msd[index].fsType == FAT32_TYPE ==>
         (fatCode == EOK ==> o.code == EOK && o.w.msd[index].mounted && o.w.msd[index].initialized) &&
         (fatCode != EOK ==> o.code == ENOTSUP))
  {
    var (w1, ok) := ConnectSpec(w, d, index, timeout);
    if ok && w1.msd[index].fsType == EXT4_TYPE {
      MountLoopFailure(w1, index, drivers, 0);
    }
  }

  lemma MountDrivesKeepsValid(w: World, d: UsbDrive, index: nat, timeout: nat, drivers: seq<PartDriver>, fatCode: int)
    requires WorldValid(w) && index < NUM_DRIVES && WellFormedScan(d.mbr) && |drivers| == MAX_MOUNT_POINTS
    ensures WorldValid(MountDrivesSpec(w, d, index, timeout, drivers, fatCode).w)
  {
    ConnectKeepsValid(w, d, index, timeout);
    var (w1, ok) := ConnectSpec(w, d, index, timeout);
    if ok && w1.msd[index].fsType == EXT4_TYPE {
      MountLoopKeepsValid(w1, index, drivers, 0);
    }
    var m := if w1.msd[index].fsType == EXT4_TYPE then MountLoop(w1, index, drivers, 0) else WorldOutcome(w1, EOK);
    if ok && m.code == EOK && m.w.msd[index].fsType == FAT32_TYPE {
      assert Ids(m.w.(msd := m.w.msd[index := m.w.msd[index].(initialized := true, mounted := true)])) == Ids(m.w);
    }
  }

  /** unmount never undoes a clearing: a cleared entry stays cleared. */
  lemma ExtUnmountKeepsCleared(s: RegState, slots: seq<Option<DriveRef>>, inst: InstState, drivers: seq<PartDriver>,
                               deinitCode: int, j: nat)
    requires WellFormed(s) && |slots| == MAX_MOUNT_POINTS && |drivers| == MAX_MOUNT_POINTS
    requires -1 <= inst.id < MAX_MOUNT_POINTS && j < MAX_MOUNT_POINTS
    ensures var o := ExtUnmountSpec(s, slots, inst, drivers, deinitCode);
      (IsClearedEntry(s.ml[j]) ==> IsClearedEntry(o.s.ml[j])) &&
      (j >= s.count ==> o.s.ml[j] == s.ml[j].(mounted := o.s.ml[j].mounted))
  {
  }

  /** One iteration of umountDrives' loop, before entry i is cleared. */
  function UmountStep(w: World, drivers: seq<PartDriver>, deinit: seq<int>, i: nat, result: int): (u: WorldOutcome)
    requires Shape(w) && |drivers| == MAX_MOUNT_POINTS && |deinit| == MAX_MOUNT_POINTS && i < MAX_MOUNT_POINTS
    ensures Shape(u.w) && u.w.msd == w.msd && u.w.s.count == w.s.count
  {
    if w.s.ml[i].mounted then UnmountAt(w, i, drivers, deinit[i]) else WorldOutcome(w, result)
  }

  lemma UmountLoopUnfold(w: World, drivers: seq<PartDriver>, deinit: seq<int>, i: nat, result: int)
    requires Shape(w) && |drivers| == MAX_MOUNT_POINTS && |deinit| == MAX_MOUNT_POINTS && i < MAX_MOUNT_POINTS
    ensures var u := UmountStep(w, drivers, deinit, i, result);
      UmountLoop(w, drivers, deinit, i, result) == UmountLoop(u.w.(s := ClrMl(u.w.s, i)), drivers, deinit, i + 1, u.code)
  {
  }

  /**
   * umountDrives' loop from partition i on clears every entry from i on
   * below the device count, keeps cleared entries cleared, and changes
   * nothing but the mounted flag of entries at or past the device count.
   */
  lemma {:induction false} UmountLoopClears(w: World, drivers: seq<PartDriver>, deinit: seq<int>, i: nat, result: int)
    requires Shape(w) && |drivers| == MAX_MOUNT_POINTS && |deinit| == MAX_MOUNT_POINTS && i <= MAX_MOUNT_POINTS
    ensures var o := UmountLoop(w, drivers, deinit, i, result);
      (forall j :: 0 <= j < MAX_MOUNT_POINTS && IsClearedEntry(w.s.ml[j]) ==> IsClearedEntry(o.w.s.ml[j])) &&
      (forall j :: i <= j < w.s.count ==> IsClearedEntry(o.w.s.ml[j])) &&
      (forall j :: w.s.count <= j < MAX_MOUNT_POINTS ==> o.w.s.ml[j] == w.s.ml[j].(mounted := o.w.s.ml[j].mounted))
    decreases MAX_MOUNT_POINTS - i
  {
    if i < MAX_MOUNT_POINTS {
      var u := UmountStep(w, drivers, deinit, i, result);
      forall j | 0 <= j < MAX_MOUNT_POINTS
        ensures (IsClearedEntry(w.s.ml[j]) ==> IsClearedEntry(u.w.s.ml[j])) &&
                (j >= w.s.count ==> u.w.s.ml[j] == w.s.ml[j].(mounted := u.w.s.ml[j].mounted))
      {
        ExtUnmountKeepsCleared(w.s, w.slots, w.inst[i], drivers, deinit[i], j);
      }
      UmountLoopUnfold(w, drivers, deinit, i, result);
      UmountLoopClears(u.w.(s := ClrMl(u.w.s, i)), drivers, deinit, i + 1, u.code);
    }
  }

  /** With nothing mounted from i on, the loop changes no instance or slot and returns `result`. */
  lemma {:induction false} UmountLoopIdle(w: World, drivers: seq<PartDriver>, deinit: seq<int>, i: nat, result: int)
    requires Shape(w) && |drivers| == MAX_MOUNT_POINTS && |deinit| == MAX_MOUNT_POINTS && i <= MAX_MOUNT_POINTS
    requires forall j :: i <= j < MAX_MOUNT_POINTS ==> !w.s.ml[j].mounted
    ensures var o := UmountLoop(w, drivers, deinit, i, result);
      o.code == result && o.w.slots == w.slots && o.w.inst == w.inst
    decreases MAX_MOUNT_POINTS - i
  {
    if i < MAX_MOUNT_POINTS {
      UmountLoopUnfold(w, drivers, deinit, i, result);
      UmountLoopIdle(w.(s := ClrMl(w.s, i)), drivers, deinit, i + 1, result);
    }
  }

  lemma {:induction false} UmountLoopKeepsValid(w: World, drivers: seq<PartDriver>, deinit: seq<int>, i: nat, result: int)
    requires WorldValid(w) && |drivers| == MAX_MOUNT_POINTS && |deinit| == MAX_MOUNT_POINTS && i <= MAX_MOUNT_POINTS
    ensures WorldValid(UmountLoop(w, drivers, deinit, i, result).w)
    decreases MAX_MOUNT_POINTS - i
  {
    if i < MAX_MOUNT_POINTS {
      var u := UmountStep(w, drivers, deinit, i, result);
      if w.s.ml[i].mounted {
        ExtUnmountKeepsConsistent(w.s, w.slots, Ids(w), i, w.inst[i].g, drivers, deinit[i]);
        assert Ids(u.w) == Ids(w)[i := -1];
      }
      var w2 := u.w.(s := ClrMl(u.w.s, i));
      assert Ids(w2) == Ids(u.w);
      UmountLoopUnfold(w, drivers, deinit, i, result);
      UmountLoopKeepsValid(w2, drivers, deinit, i + 1, u.code);
    }
  }

  /**
   * umountDrives' outcomes: the record always ends at its defaults and the
   * other record is untouched; for an ext4 drive every entry below the
   * device count and device slot 0 are cleared, while entries past the
   * count keep their type and availability; for any other drive the
   * registries and instances are untouched and the FAT code (FAT32) or EOK
   * is returned. Afterwards checkAvailable finds a null drive.
   */
  lemma UmountDrivesResult(w: World, index: nat, drivers: seq<PartDriver>, deinit: seq<int>, fatCode: int,
                           driveConnected: bool)
    requires Shape(w) && index < NUM_DRIVES && |drivers| == MAX_MOUNT_POINTS && |deinit| == MAX_MOUNT_POINTS
    ensures var o := UmountDrivesSpec(w, index, drivers, deinit, fatCode);
      o.w.msd[index] == DEFAULT_DRV_TYPE &&
      (forall k :: 0 <= k < NUM_DRIVES && k != index ==> o.w.msd[k] == w.msd[k]) &&
      (w.msd[index].fsType == EXT4_TYPE ==>
         IsClearedDevice(o.w.s.bd[SDA]) &&
         (forall j :: 0 <= j < w.s.count ==> IsClearedEntry(o.w.s.ml[j])) &&
         (forall j :: w.s.count <= j < MAX_MOUNT_POINTS ==>
            o.w.s.ml[j].pt == w.s.ml[j].pt && o.w.s.ml[j].available == w.s.ml[j].available) &&
         ((forall j :: 0 <= j < MAX_MOUNT_POINTS ==> !w.s.ml[j].mounted) ==>
            o.code == EOK && o.w.slots == w.slots && o.w.inst == w.inst)) &&
      (w.msd[index].fsType != EXT4_TYPE ==>
         o.w.s == w.s && o.w.slots == w.slots && o.w.inst == w.inst &&
         o.code == (if w.msd[index].fsType == FAT32_TYPE then fatCode else EOK)) &&
      CheckAvailable(o.w.msd, index, driveConnected).None?
  {
    UmountLoopClears(w, drivers, deinit, 0, EOK);
    if forall j :: 0 <= j < MAX_MOUNT_POINTS ==> !w.s.ml[j].mounted {
      UmountLoopIdle(w, drivers, deinit, 0, EOK);
    }
  }

  lemma UmountDrivesKeepsValid(w: World, index: nat, drivers: seq<PartDriver>, deinit: seq<int>, fatCode: int)
    requires WorldValid(w) && index < NUM_DRIVES && |drivers| == MAX_MOUNT_POINTS && |deinit| == MAX_MOUNT_POINTS
    ensures WorldValid(UmountDrivesSpec(w, index, drivers, deinit, fatCode).w)
  {
    UmountLoopKeepsValid(w, drivers, deinit, 0, EOK);
    var o := UmountLoop(w, drivers, deinit, 0, EOK);
    assert Ids(o.w.(s := ClrBdl(o.w.s, SDA))) == Ids(o.w);
  }

  // ---------------------------------------------------------------------
  // The drive lifecycle, in place
  // ---------------------------------------------------------------------

  /** msd[2] and extfsp[4] with the registries and the _extfs table they share. */
  /** The globals as the program starts, with `count` block devices configured. */
  function InitialWorld(count: nat): (w: World)
    requires 1 <= count <= 4
    ensures Shape(w)
  {
    World(seq(NUM_DRIVES, _ => DEFAULT_DRV_TYPE), InitialState(count),
          seq(MAX_MOUNT_POINTS, _ => None), seq(MAX_MOUNT_POINTS, _ => InstState(-1, GigaState(0, ""))))
  }

  /** The starting globals already satisfy the lifecycle invariant, with no drive, slot or mounted entry. */
  lemma InitialWorldValid(count: nat)
    requires 1 <= count <= 4
    ensures var w := InitialWorld(count);
      WorldValid(w) && Ids(w) == [-1, -1, -1, -1] &&
      (forall k :: 0 <= k < NUM_DRIVES ==> CheckAvailable(w.msd, k, true) == None) &&
      (forall j :: 0 <= j < MAX_MOUNT_POINTS ==> !w.s.ml[j].mounted)
  {
    var w := InitialWorld(count);
    assert Ids(w) == [-1, -1, -1, -1];
  }

  /**
   * connectInitialized's polling loop: connect() is retried until the
   * drive answers or `timeout` further polls have failed.
   */
  method WaitConnected(d: UsbDrive, timeout: nat) returns (up: bool)
    ensures up == ConnectsWithin(d, 1, timeout)
  {
    var poll, budget := 1, timeout;
    while !Connected(d, poll)
      invariant ConnectsWithin(d, poll, budget) == ConnectsWithin(d, 1, timeout)
      decreases budget
    {
      if budget == 0 {
        return false;
      }
      poll, budget := poll + 1, budget - 1;
    }
    return true;
  }

  class DriveManager {
    const msd: array<DrvType>
    const reg: Registry
    const table: ExtfsTable
    /** extfsp: ext1 .. ext4 */
    const ext: seq<Ext4FileSystem>

    /** The four EXT4FileSystem objects and their drivers. */
    ghost function Objects(): set<object>
      reads this
    {
      if |ext| == MAX_MOUNT_POINTS then
        {ext[0], ext[1], ext[2], ext[3], ext[0].fs, ext[1].fs, ext[2].fs, ext[3].fs}
      else {}
    }

    ghost predicate Shaped()
      reads this
    {
      msd.Length == NUM_DRIVES && reg.Valid() && table.Valid() && |ext| == MAX_MOUNT_POINTS
    }

    ghost function Model(): World
      requires Shaped()
      reads this, msd, reg.bdList, reg.mountList, table.slots, Objects()
    {
      World(msd[..], reg.State(), table.slots[..], [ext[0].Inst(), ext[1].Inst(), ext[2].Inst(), ext[3].Inst()])
    }

    ghost predicate Valid()
      reads this, msd, reg.bdList, reg.mountList, table.slots, Objects()
    {
      Shaped() &&
      (forall k :: 0 <= k < MAX_MOUNT_POINTS ==> ext[k].fs.reg == reg && ext[k].table == table) &&
      (forall k, l :: 0 <= k < MAX_MOUNT_POINTS && 0 <= l < MAX_MOUNT_POINTS && k != l ==> ext[k] != ext[l] && ext[k].fs != ext[l].fs) &&
      WorldValid(Model())
    }

    /** The globals as the program starts: default records, default registries and four instances without a device. */
    constructor (count: nat)
      requires 1 <= count <= 4
      ensures Valid() && Model() == InitialWorld(count)
    {
      var r := new Registry(count);
      var tb := new ExtfsTable();
      var es := NewInstances(r, tb);
      msd := new DrvType[NUM_DRIVES](_ => DEFAULT_DRV_TYPE);
      reg := r;
      table := tb;
      ext := es;
      new;
      assert Shaped();
      ghost var w := InitialWorld(count);
      assert Model() == w by {
        assert msd[..] == w.msd && tb.slots[..] == w.slots;
        assert [es[0].Inst(), es[1].Inst(), es[2].Inst(), es[3].Inst()] == w.inst;
      }
      InitialWorldValid(count);
    }

    /** extfsp: four new EXT4FileSystem objects, each with its own GIGAext4 driver on the shared registry and table. */
    static method NewInstances(r: Registry, tb: ExtfsTable) returns (es: seq<Ext4FileSystem>)
      requires r.Valid() && tb.Valid()
      ensures |es| == MAX_MOUNT_POINTS
      ensures forall k :: 0 <= k < MAX_MOUNT_POINTS ==>
        fresh(es[k]) && fresh(es[k].fs) && es[k].fs.reg == r && es[k].table == tb &&
        es[k].Inst() == InstState(-1, GigaState(0, ""))
      ensures forall k, l :: 0 <= k < MAX_MOUNT_POINTS && 0 <= l < MAX_MOUNT_POINTS && k != l ==>
        es[k] != es[l] && es[k].fs != es[l].fs
    {
      var e1 := NewInstance(r, tb);
      var e2 := NewInstance(r, tb);
      var e3 := NewInstance(r, tb);
      var e4 := NewInstance(r, tb);
      es := [e1, e2, e3, e4];
    }

    /** new EXT4FileSystem() with its own GIGAext4 driver. */
    static method NewInstance(r: Registry, tb: ExtfsTable) returns (e: Ext4FileSystem)
      requires r.Valid() && tb.Valid()
      ensures fresh(e) && fresh(e.fs) && e.Valid() && e.fs.reg == r && e.table == tb
      ensures e.Inst() == InstState(-1, GigaState(0, ""))
    {
      var f := new GigaExt4(r);
      e := new Ext4FileSystem(f, tb);
    }

    /** msd[index] := rec; a record without a drive is the default one. */
    method SetRecord(index: nat, rec: DrvType)
      requires Valid() && index < NUM_DRIVES && (rec.drive.None? ==> rec == DEFAULT_DRV_TYPE)
      modifies msd
      ensures Valid()
      ensures Model() == old(Model()).(msd := old(Model()).msd[index := rec])
    {
      ghost var w := Model();
      msd[index] := rec;
      assert Ids(Model()) == Ids(w);
    }

    /** get_fs_type(d), run on extfsp[0]'s driver. */
    method FsType(d: UsbDrive) returns (t: int)
      requires Valid() && WellFormedScan(d.mbr)
      modifies reg.bdList
      ensures Valid()
      ensures var g := GetFsTypeSpec(old(Model()).s, d.handle, d.initCode, d.mbr);
        Model() == old(Model()).(s := g.s) && t == g.code
    {
      ghost var w := Model();
      t := ext[0].fs.GetFsType(d.handle, d.initCode, d.mbr);
      assert Ids(Model()) == Ids(w);
    }

    /** init_block_device(d, 0), run on extfsp[0]'s driver. */
    method InitDevice(d: UsbDrive) returns (r: int)
      requires Valid() && WellFormedScan(d.mbr)
      modifies reg.bdList, reg.mountList
      ensures Valid()
      ensures var g := InitBlockDeviceSpec(old(Model()).s, d.handle, 0, d.atInit, d.mbr);
        Model() == old(Model()).(s := g.s) && r == g.code
    {
      ghost var w := Model();
      r := ext[0].fs.InitBlockDevice(d.handle, 0, d.atInit, d.mbr);
      assert Ids(Model()) == Ids(w);
    }

    /**
     * connectInitialized(d, index): `timeout` is how many failed polls
     * CONNECT_TIMEOUT allows. The record is assembled locally and written
     * once; get_fs_type and init_block_device do not read it.
     */
    method ConnectInitialized(d: UsbDrive, index: nat, timeout: nat) returns (ok: bool)
      requires Valid() && index < NUM_DRIVES && WellFormedScan(d.mbr)
      modifies msd, reg.bdList, reg.mountList
      ensures Valid()
      ensures (Model(), ok) == ConnectSpec(old(Model()), d, index, timeout)
    {
      if Connected(d, 0) && msd[index].mounted {
        return true;
      }
      var up := WaitConnected(d, timeout);
      if !up {
        SetRecord(index, DEFAULT_DRV_TYPE);
        return false;
      }
      var rec := msd[index].(drive := Some(d.handle));
      var t := FsType(d);
      rec := rec.(fsType := t, connected := true);
      var initOk := false;
      if t == EXT4_TYPE {
        var r := InitDevice(d);
        initOk := r == EOK;
      }
      if initOk {
        SetRecord(index, rec.(initialized := true));
      } else if t == FAT32_TYPE {
        SetRecord(index, rec);
      } else {
        SetRecord(index, DEFAULT_DRV_TYPE);
      }
      return true;
    }

    /** mountDrives' ext4 loop over extfsp[0..3]. */
    method MountPartitions(index: nat, drivers: seq<PartDriver>) returns (result: int)
      requires Valid() && index < NUM_DRIVES && |drivers| == MAX_MOUNT_POINTS && msd[index].drive.Some?
      modifies msd, reg.mountList, table.slots, Objects()
      ensures Valid()
      ensures WorldOutcome(Model(), result) == MountLoop(old(Model()), index, drivers, 0)
    {
      ghost var goal := MountLoop(Model(), index, drivers, 0);
      for i := 0 to MAX_MOUNT_POINTS
        invariant Valid() && msd[index].drive.Some?
        invariant MountLoop(Model(), index, drivers, i) == goal
      {
        if reg.mountList[i].pt == EXT4_TYPE && !reg.mountList[i].mounted {
          ghost var w := Model();
          assert ext[i] in Objects() && ext[i].fs in Objects();
          result := MountInstance(i, msd[index].drive, drivers);
          if result != EOK {
            SetRecord(index, msd[index].(mounted := false));
            return result;
          }
          SetRecord(index, msd[index].(mounted := true));
        }
      }
      return EOK;
    }

    /** extfsp[i]->mount(bd): only instance i, its driver, the registry and the table change. */
    method MountInstance(i: nat, bd: Option<DriveRef>, drivers: seq<PartDriver>) returns (r: int)
      requires Valid() && i < MAX_MOUNT_POINTS && |drivers| == MAX_MOUNT_POINTS && bd.Some?
      modifies reg.mountList, table.slots, ext[i], ext[i].fs
      ensures Valid()
      ensures WorldOutcome(Model(), r) == MountAt(old(Model()), i, bd, drivers)
    {
      ghost var w := Model();
      ghost var e := MountAt(w, i, bd, drivers);
      MountAtKeepsValid(w, i, bd, drivers);
      r := ext[i].Mount(bd, drivers);
      forall k | 0 <= k < MAX_MOUNT_POINTS && k != i
        ensures ext[k].Inst() == w.inst[k]
      {
        assert ext[k] != ext[i] && ext[k].fs != ext[i].fs;
      }
      assert Model() == e.w && r == e.code;
    }

    /** extfsp[i]->unmount(): only instance i, its driver, the registry and the table change. */
    method UnmountInstance(i: nat, drivers: seq<PartDriver>, deinitCode: int) returns (r: int)
      requires Valid() && i < MAX_MOUNT_POINTS && |drivers| == MAX_MOUNT_POINTS
      modifies reg.bdList, reg.mountList, table.slots, ext[i], ext[i].fs
      ensures Valid()
      ensures WorldOutcome(Model(), r) == UnmountAt(old(Model()), i, drivers, deinitCode)
    {
      ghost var w := Model();
      UnmountAtKeepsValid(w, i, drivers, deinitCode);
      assert Ids(w)[i] == ext[i].id;
      ghost var e := UnmountAt(w, i, drivers, deinitCode);
      r := ext[i].Unmount(drivers, deinitCode);
      forall k | 0 <= k < MAX_MOUNT_POINTS && k != i
        ensures ext[k].Inst() == w.inst[k]
      {
        assert ext[k] != ext[i] && ext[k].fs != ext[i].fs;
      }
      assert Model() == e.w && r == e.code;
    }

    /** clr_ML_entry(i), called through extfsp[i]'s driver. */
    method ClearEntry(i: nat)
      requires Valid() && i < MAX_MOUNT_POINTS
      modifies reg.mountList
      ensures Valid()
      ensures Model() == old(Model()).(s := ClrMl(old(Model()).s, i))
    {
      ghost var w := Model();
      assert ext[i] in Objects() && ext[i].fs in Objects();
      var _ := ext[i].fs.ClrMlEntry(i);
      assert Ids(Model()) == Ids(w);
    }

    /** mountDrives(d, index): `fatCode` is what the FAT driver's mount returns. */
    method MountDrives(d: UsbDrive, index: nat, timeout: nat, drivers: seq<PartDriver>, fatCode: int) returns (r: int)
      requires Valid() && index < NUM_DRIVES && WellFormedScan(d.mbr) && |drivers| == MAX_MOUNT_POINTS
      modifies msd, reg.bdList, reg.mountList, table.slots, Objects()
      ensures Valid()
      ensures WorldOutcome(Model(), r) == MountDrivesSpec(old(Model()), d, index, timeout, drivers, fatCode)
    {
      MountDrivesKeepsValid(Model(), d, index, timeout, drivers, fatCode);
      var ok := ConnectInitialized(d, index, timeout);
      if !ok {
        return ENODEV;
      }
      var result := EOK;
      if msd[index].fsType == EXT4_TYPE {
        result := MountPartitions(index, drivers);
        if result != EOK {
          return result;
        }
      }
      if msd[index].fsType == FAT32_TYPE {
        result := fatCode;
        if result == EOK {
          SetRecord(index, msd[index].(initialized := true, mounted := true));
        } else {
          return ENOTSUP;
        }
      }
      if msd[index].mounted {
        return result;
      } else {
        return ENOTSUP;
      }
    }

    /** umountDrives' ext4 branch. */
    method UnmountExt4(drivers: seq<PartDriver>, deinit: seq<int>) returns (result: int)
      requires Valid() && |drivers| == MAX_MOUNT_POINTS && |deinit| == MAX_MOUNT_POINTS
      modifies reg.bdList, reg.mountList, table.slots, Objects()
      ensures Valid()
      ensures WorldOutcome(Model(), result) == UmountExt4Spec(old(Model()), drivers, deinit)
    {
      result := UnmountPartitions(drivers, deinit);
      ClearDevice(SDA);
    }

    /** umountDrives' ext4 loop: unmount each mounted instance, then clear its entry. */
    method UnmountPartitions(drivers: seq<PartDriver>, deinit: seq<int>) returns (result: int)
      requires Valid() && |drivers| == MAX_MOUNT_POINTS && |deinit| == MAX_MOUNT_POINTS
      modifies reg.bdList, reg.mountList, table.slots, Objects()
      ensures Valid()
      ensures WorldOutcome(Model(), result) == UmountLoop(old(Model()), drivers, deinit, 0, EOK)
    {
      result := EOK;
      ghost var goal := UmountLoop(Model(), drivers, deinit, 0, EOK);
      for i := 0 to MAX_MOUNT_POINTS
        invariant Valid()
        invariant UmountLoop(Model(), drivers, deinit, i, result) == goal
      {
        UmountLoopUnfold(Model(), drivers, deinit, i, result);
        if reg.mountList[i].mounted {
          assert ext[i] in Objects() && ext[i].fs in Objects();
          result := UnmountInstance(i, drivers, deinit[i]);
        }
        ClearEntry(i);
      }
    }

    /** clr_BDL_entry(dev), called through extfsp[0]'s driver. */
    method ClearDevice(dev: Byte)
      requires Valid()
      modifies reg.bdList
      ensures Valid()
      ensures Model() == old(Model()).(s := ClrBdl(old(Model()).s, dev))
    {
      ghost var w := Model();
      var _ := ext[0].fs.ClrBdlEntry(dev);
      assert Ids(Model()) == Ids(w);
    }

    /**
     * umountDrives(index): `deinit[i]` is what extfsp[i]'s block device
     * deinit() returns and `fatCode` what the FAT driver's unmount returns.
     */
    method UmountDrives(index: nat, drivers: seq<PartDriver>, deinit: seq<int>, fatCode: int) returns (r: int)
      requires Valid() && index < NUM_DRIVES && |drivers| == MAX_MOUNT_POINTS && |deinit| == MAX_MOUNT_POINTS
      modifies msd, reg.bdList, reg.mountList, table.slots, Objects()
      ensures Valid()
      ensures WorldOutcome(Model(), r) == UmountDrivesSpec(old(Model()), index, drivers, deinit, fatCode)
    {
      var result := EOK;
      if msd[index].fsType == EXT4_TYPE {
        result := UnmountExt4(drivers, deinit);
      }
      if msd[index].fsType == FAT32_TYPE {
        result := fatCode;
      }
      SetRecord(index, DEFAULT_DRV_TYPE);
      return result;
    }
  }
}

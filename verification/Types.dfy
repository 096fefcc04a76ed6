/** Values shared by the file-system modules: error numbers, expected results,
    permission masks and stat records. */
module Types {

  newtype byte = x: int | 0 <= x < 256

  /** The POSIX error numbers the file system returns. */
  datatype Errno = ENOENT | EACCES | EEXIST | EXDEV | ENOTDIR | EISDIR | EINVAL | ENOTEMPTY

  /** `std::expected<T, int>`. */
  datatype Result<+T> = Ok(value: T) | Err(errno: Errno)

  /** `std::expected<void, int>`. */
  type Status = Result<()>

  const DONE: Status := Ok(())

  /** The mount permission bitmask. */
  type Perm = bv8

  const NONE: Perm := 0
  const READ: Perm := 1
  const WRITE: Perm := 2

  /** Whether the mask `granted` contains every bit of `needed`. */
  predicate Grants(granted: Perm, needed: Perm) {
    granted & needed == needed
  }

  /** Inode numbers are 64 bits wide and the counter wraps around. */
  const INO_LIMIT: nat := 0x1_0000_0000_0000_0000

  function NextInode(i: nat): nat {
    (i + 1) % INO_LIMIT
  }

  datatype Stat = Stat(
    dev: nat, ino: nat, mode: bv32, nlink: nat, uid: nat, gid: nat, rdev: nat,
    size: int, blksize: int, blocks: int, atimeMs: int, mtimeMs: int, ctimeMs: int)
  {
    predicate IsDir() {
      mode & 0xF000 == 0x4000
    }
  }

  /** The stat record of a node created at time `now`. */
  function FreshStat(ino: nat, mode: bv32, now: int): Stat {
    Stat(0, ino, mode, 1, 1000, 1000, 0, 0, 0, 0, now, now, now)
  }

  /** The mode bits of a regular file, `0100644`. */
  const FILE_MODE: bv32 := 0x81A4

  /** The mode bits of the root directory, `040777`. */
  const ROOT_MODE: bv32 := 0x41FF

  /** The mode bits of a directory created with the permission bits of `mode`. */
  function DirMode(mode: bv32): (m: bv32)
    ensures m & 0xF000 == 0x4000
    ensures m & 0x1FF == mode & 0x1FF
  {
    0x4000 | (mode & 0x1FF)
  }
}

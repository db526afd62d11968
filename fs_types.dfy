/** Constants, the entry record and the error kinds of the in-memory filesystem. */
module FsTypes {

  /** Capacities, as defined at the top of both source files. */
  const BLOCK_SIZE: nat := 1024
  const MAX_BLOCKS: nat := 1000
  const MAX_FILES: nat := 100
  const MAX_FILENAME: nat := 32

  /** The terminating character of a C string. */
  const NUL: char := '\0'

  /** One storage block; every block of the pool holds exactly BLOCK_SIZE characters. */
  type Block = seq<char>

  /** One slot of the entry table (timestamps are not modelled).
      `name` is the C string held in `filename`, i.e. the characters before its NUL. */
  datatype Entry = Entry(
    name: string,
    size: nat,
    startBlock: int,
    numBlocks: int,
    isDirectory: bool,
    parent: int)

  /** The reasons an operation reports failure (each a distinct diagnostic in the source). */
  datatype FsError =
    | InvalidIndex      // index outside the table, or an empty slot
    | NotFound          // no live entry of that name in the current directory
    | DuplicateName
    | TableFull         // num_files has reached MAX_FILES
    | NoFreeSlot        // no slot with an empty name
    | OutOfSpace        // no run of enough contiguous free blocks
    | IsADirectory      // write, read or delete_file on a directory
    | NotADirectory     // cd or recursive delete on a file
    | EmptyFile         // read of a file that was never written
    | CannotDeleteRoot

  datatype Result<T> = Ok(value: T) | Err(error: FsError)

  /** A slot after `memset(.., 0, ..)`: empty name, every number 0. */
  const BlankEntry: Entry := Entry("", 0, 0, 0, false, 0)

  /** Slot 0 as `init_filesystem` leaves it. */
  const RootEntry: Entry := Entry("/", 0, 0, 0, true, 0)

  /** A string a C caller can pass: it has no interior NUL. */
  predicate IsCString(s: string) {
    NUL !in s
  }

  /** A slot is in use iff its name is not the empty string. */
  predicate IsLive(e: Entry) {
    e.name != ""
  }

  /** The name `strncpy(filename, name, MAX_FILENAME - 1)` leaves in a zeroed slot. */
  function StoredName(name: string): (r: string)
    ensures r <= name
    ensures |r| == if |name| < MAX_FILENAME then |name| else MAX_FILENAME - 1
  {
    if |name| < MAX_FILENAME then name else name[..MAX_FILENAME - 1]
  }

  /** The number of blocks `write_file` reserves for `len` bytes: ceil(len / BLOCK_SIZE). */
  function BlocksNeeded(len: nat): (n: nat)
    ensures len == 0 ==> n == 0
    ensures len > 0 ==> n >= 1 && (n - 1) * BLOCK_SIZE < len <= n * BLOCK_SIZE
  {
    (len + BLOCK_SIZE - 1) / BLOCK_SIZE
  }

  /** How many bytes block `j` of an `n`-block, `len`-byte payload carries: a full block,
      except the last one, which carries the remainder. Used by both the copy-in loop of
      `write_file` and the copy-out loop of `read_file`. */
  function ChunkLength(j: nat, n: nat, len: nat): (r: nat)
    requires len >= 1 && n == BlocksNeeded(len) && j < n
    ensures 0 < r <= BLOCK_SIZE
    ensures j * BLOCK_SIZE + r <= len
    ensures j == n - 1 ==> j * BLOCK_SIZE + r == len
    ensures j < n - 1 ==> r == BLOCK_SIZE
  {
    if j == n - 1 then len - j * BLOCK_SIZE else BLOCK_SIZE
  }
}

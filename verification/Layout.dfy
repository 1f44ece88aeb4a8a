/** The sizes and the end marker that the file system and its on-disk format share. */
module Layout {

  const BLOCK_SIZE := 4096
  const FAT_ENTRIES_PER_BLOCK := 2048
  const FILE_MAX_COUNT := 128
  const FILENAME_LEN := 16

  /** The end-of-chain marker, the largest 16-bit value. */
  const EOC := 0xFFFF
}

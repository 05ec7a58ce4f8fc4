/** Constants of the FAT32 format, as in os/fs/fat/fatutils.h. */
module Fat {
  /** Entries from here on end a chain; the kernel also marks the root directory with it. */
  const END_CLUSTER := 0x0FFF_FFF8
}

/** The page size of the x86. */
module PageSize {
  const PAGE_SIZE: nat := 4096
}

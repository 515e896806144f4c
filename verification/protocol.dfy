/** Sizes and codes both sides share. */
module Protocol {
  import opened Xdr

  const MAXNAMLEN: nat := 255
  const MAXPATHLEN: nat := 1024
  const FHSIZE: nat := 8
  const PAGE_SIZE: nat := 4096
  const PAGE_WORDS: nat := 1024

  const TYPE_REG: u32 := 1
  const TYPE_DIR: u32 := 2

  const SLASH: byte := 47
}

/**
 The headers of boot and vendor boot images as C structs without padding: the offset of each
 field is the total width of those before it.
 */
module StructLayout {
  import opened AsciiText
  import B = BootImage
  import V = VendorBootFormat

  /**
   The vendor boot header: magic, version, page size and two addresses; the ramdisk size; the
   command line, an address, a name and the header size; size and address of the DTB. Version 4
   adds four words: size, number and entry size of the ramdisk table, and the bootconfig size.
   */
  lemma VendorBootHeader()
    ensures V.VENDOR_BOOT_MAGIC == Ascii("VNDRBOOT") && V.AVB_FOOTER_MAGIC == Ascii("AVBf")
    ensures V.VERSION_AT == 8 && V.PAGE_SIZE_AT == 8 + 4 && V.RAMDISK_SIZE_AT == 8 + 4 + 4 + 4 + 4
    ensures V.DTB_SIZE_AT == V.RAMDISK_SIZE_AT + 4 + 2048 + 4 + 16 + 4 && V.V3_HEADER_SIZE == V.DTB_SIZE_AT + 4 + 8
    ensures V.TABLE_SIZE_AT == V.V3_HEADER_SIZE && V.ENTRY_NUM_AT == V.V3_HEADER_SIZE + 4
    ensures V.ENTRY_SIZE_AT == V.V3_HEADER_SIZE + 8 && V.BOOTCONFIG_SIZE_AT == V.V3_HEADER_SIZE + 12
    ensures V.V4_HEADER_SIZE == V.V3_HEADER_SIZE + 16
    ensures V.ENTRY_SIZE == 4 + 4 + 4 + V.NAME_SIZE + 16 * 4 && V.NAME_SIZE == 32
  {
  }

  /**
   The boot image header of versions 0 to 2: the magic, seven words, page size, header version
   and OS version; a name, the command line, the id, and the rest of the command line; then for
   version 1 the recovery DTBO and the header size, and for version 2 the DTB. Versions 3 and 4
   hold sizes, versions, four reserved words and a command line.
   */
  lemma BootHeader()
    ensures B.BOOT_MAGIC == Ascii("ANDROID!")
    ensures B.KERNEL_SIZE_AT == 8 && B.KERNEL_ADDR_AT == 12 && B.RAMDISK_SIZE_AT == 16 && B.RAMDISK_ADDR_AT == 20
    ensures B.SECOND_SIZE_AT == 24 && B.SECOND_ADDR_AT == 28 && B.TAGS_ADDR_AT == 32
    ensures B.PAGE_SIZE_AT == 8 + 7 * 4 && B.VERSION_AT == B.PAGE_SIZE_AT + 4 && B.OS_VERSION_AT == B.VERSION_AT + 4
    ensures B.HEADER_SIZE_AT == B.OS_VERSION_AT + 4 + 16 + 512 + 32 + 1024 + 4 + 8
    ensures B.V1_HEADER_SIZE == B.HEADER_SIZE_AT + 4 && B.DTB_SIZE_AT == B.V1_HEADER_SIZE
    ensures B.DTB_ADDR_AT == B.DTB_SIZE_AT + 4 && B.V2_HEADER_SIZE == B.DTB_ADDR_AT + 8
    ensures B.V3_RAMDISK_SIZE_AT == 12 && B.V3_OS_VERSION_AT == 16 && B.V3_HEADER_SIZE_AT == 20
    ensures B.VERSION_AT == B.V3_HEADER_SIZE_AT + 4 + 4 * 4
    ensures B.V3_HEADER_SIZE == B.VERSION_AT + 4 + 1536 && B.V4_SIGNATURE_SIZE_AT == B.V3_HEADER_SIZE
  {
  }
}

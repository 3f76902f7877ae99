# Verified models of Android's fastboot, fs_mgr and bootstat cores

This project models the parts of Android's `system/core` where the most can go wrong, and
proves what they guarantee, or exactly when they do:

- **Fastboot over UDP** (`Udp*.dfy`): the stop-and-wait protocol between host and device on a
  network that loses, repeats, delays and reorders packets, with calls that fail, and the host's
  transport with its chunking, continuation flags and retransmission, tied to the protocol by its
  transmission log.
- **Repacking vendor boot images** (`DataUpdater.dfy`, `VendorBoot*.dfy`): the two rewriting
  functions, as transformations of what an image means.
- **The super flash optimiser** (`SuperLayout.dfy`, `FlashPlan.dfy`, `FlashSemantics.dfy`,
  `SuperFlash.dfy`): a task list is rewritten so that dynamic partitions are flashed as one super
  image, laid out extent by extent.
- **Byte streams** (`UsbWriter.dfy`, `HexText.dfy`, `Driver*.dfy`, `FastbootDriver.dfy`,
  `Tcp*.dfy`, `BootImage.dfy`, `MkBootImage.dfy`): the double-buffered USB writer, the fastboot
  driver with its sparse buffer and its fetch loop, TCP framing, and the boot image maker.
  `AsciiText.dfy` and `StructLayout.dfy` spell out the words and the headers.
- **Mounting** (`Mount*.dfy`, `Overlay*.dfy`): mounting an overlay over a mount point with
  submounts, and the fstab loop that formats wiped partitions and replays their entries.
- **Repair of damaged boot reasons** (`Bit*.dfy`, `UnderlineRepair.dfy`, `BootReason.dfy`,
  `ReasonText.dfy`).

Sockets, the kernel, the mount table, files, clocks and libraries whose code is not part of
the repository are oracles: classes that answer from a script of any content, or parameters.
What passes through them is recorded in logs, and the results are about every log. Objects
that the sources update in place are classes; loops are loops with invariants.

`dafny verify dfyconfig.toml` checks everything.

## Main results

- Host and device stay in lock step in every run, for every network behaviour, exactly when no
  packet outlives 2^16 exchanges and a call after a failed one sends the packet that failed, or
  when nothing is delivered at all (`UdpWindow.WindowExact`). Without that care a write can report
  success and never reach the device (`UdpDelivery.SuccessfulWriteLost`); with it, writes and reads
  that succeed deliver exactly their bytes (`UdpDelivery.WriteDelivered`, `ReadDelivered`). A call
  gives up only if the socket fails, a datagram is shorter than a header, the device reports an
  error, or a datagram was sent as often as allowed and met with silence each time
  (`UdpTransport.UdpTransport.Write`), and a waiting host is never stuck
  (`UdpProgress.AlwaysCompletes`).
- Replacing a ramdisk fragment succeeds exactly when the image parses, the name is unique and the
  result fits. It keeps everything else an image means exactly when the new content and the AVB
  footer do not collide, and the last write wins byte for byte exactly when a collision of the
  first one is undone (`VendorBootFragment.ReplaceVendorRamdiskFragment`,
  `VendorBootTheorems.MeaningPreserved`, `LastWriteWins`). An image whose whole ramdisk was replaced
  is read as one fragment (`VendorBootReader.OneFragmentRead`).
- The optimised task list runs through exactly when every first image flashed to a dynamic
  partition is long enough for the last, and then gives every flashed partition what the original
  list does exactly when the first image, cut to the length of the last, is the last
  (`FlashSemantics.SuperFlashPreserves`). What the super image does to a partition is read off the
  layout that is flashed (`SuperFlash.SuperHoldsImages`).
- Mounting an overlay, whatever fails on the way, leaves everything outside the mount point
  reachable as before and every submount that could be moved back, with everything inside it, where
  it was; no mount is lost exactly when all could (`OverlayRestored.SubmountsRestored`).
- Mounting all of an fstab terminates and formats only wiped, formattable partitions, none twice
  (`MountAll.MountAll`, `MountLaws.FormattedOnce`). In all runs each mount point is mounted at most
  once exactly when no mount point comes again after its group (`MountExact.MountedOnceExact`), and
  mounted entries are encrypted with formatting only where their own partition was wiped exactly
  when no entry found wiped comes before one that was not (`MountExact.OwnFormatsExact`). What is
  done about every failure and the status that is returned can be read off the log and the table
  (`MountReaction.EveryReaction`, `MountStatus.StatusFromLog`). A busy or
  inaccessible partition is never formatted exactly when no entry that can be formatted has alternates
  (`MountErrno.GuardExact`).
- The USB writer, the sparse buffer, TCP framing, downloads and fetches move their bytes once and
  in order, for every partial, failing or reordered completion (`UsbWriter.SubmittedOnceInOrder`,
  `TcpTransport.RoundTrip`, `DriverTheorems.SparseExact`, `DriverFetch.FetchSucceedsExactly`). What
  a call of the driver returns is what the bytes of its last packet say (`DriverWords.DecidedExactly`).
- A reported repair of a boot reason is a change of the text unless the needle can undo itself, a
  condition on the needle alone (`UnderlineRepair.CorrectForBitErrorOrUnderline`). A damaged reason is
  repaired exactly when the damage is mild (`ReasonText.DamageRepaired`).

## Where the code and its documentation differ

The model follows the code.

- fastboot/README.md:397-437 describes packets that are sent until they are answered. The host gives
  up after its attempts, on a socket failure or on a datagram shorter than a header
  (fastboot/udp.cpp:261-279, 315-318) and keeps its number, so the next call may send another packet
  under it and take the answer to the first for its own (`UdpWindow.CarelessRun`).
- fastboot/README.md:412-416 shows every packet of a message but the last with the continuation
  flag. The host does this exactly when no answer is continued (`UdpDelivery.FlagsExact`).
- fastboot/vendor_boot_img_utils.cpp:197-202 copies the AVB footer over whatever was written to the
  last 64 bytes and reports success (`VendorBootCollision.FooterOverwritesBootconfig`).
- fastboot/vendor_boot_img_utils.cpp:323-326 tests the number of table entries against everything up
  to the end of the table instead of the table, so tables that run past the image are accepted
  (`VendorBootFragment.TableBeyondImageAccepted`).
- fastboot/super_flash_helper.cpp:43-71 keeps the first image and the last size of a partition that
  is flashed twice (`FlashSemantics.TwiceFlashedDiffers`, `ShorterFirstGivesUp`).
- fastboot/fastboot_driver.cpp:507-515 reads a 32-bit size into a signed integer, so a device that
  announces 2 GiB or more is refused (`DriverFetch.ReadBackExactly`).
- fastboot/socket.cpp:202-234 never finishes with an empty last buffer, so an empty message is never
  reported as written (`TcpTransport.TcpTransport.Write`).
- fastboot/bootimg_utils.cpp:124-129 puts the kernel one page from the start, whatever the size of the
  header. With pages smaller than the header it can overwrite the DTB size
  (`MkBootImage.SmallPageLosesDtb`).
- fs_mgr/fs_mgr_overlayfs_mount.cpp:484-486 passes over a submount whose security context cannot be
  had without reporting it; the submount stays below the overlay
  (`MountSelect.PassedOverStaysBehind`).
- fs_mgr/fs_mgr.cpp:937 says the first mount failure is reported. An entry with a bad magic
  anywhere in the group turns the error into `EINVAL` (`MountAlternatives.ErrnoExact`,
  `MountErrno.BusyReportedInvalid`). So the test at fs_mgr/fs_mgr.cpp:1588, which keeps busy and
  inaccessible partitions from being formatted, lets them through when the entry has an alternate with
  a bad magic (`MountErrno.BusyDataFormatted`).
- fs_mgr/fs_mgr.cpp:1561 tells the encryption service to format if `wiped` is set. The flag is the
  answer of the last check in the run, whatever partition that was about, so `/data` can be formatted
  because the cache was wiped (`MountExact.DataFormattedForCache`).
- bootstat/bootstat.cpp:682-684 promises a report of corrections that were applied. The second pass
  can undo the first, so that a correction is reported although the string is as before
  (`UnderlineRepair.KernelPanicUndone`). `kernel_panic` is the only known reason with an underline.
  Of the keys of the reason map (bootstat/bootstat.cpp:229-500) with one, `hw_reset` and others like it
  are safe (`UnderlineRepair.HwResetSafe`); those for which, as they stand, `UnderlineRepair.Undoable` holds are
  `cold_boot`, `factory_cable`, `kernel_panic` alone and with `atomic`, `audit`, `bug`, `dsps`, `hung`,
  `hung,rcu`, `init`, `modem`, `oom`, `sysrq,livelock,alarm`, `sysrq,livelock,zombie` or `wcnss`,
  `oem_adsp_resetting_the_soc`, `oem_crash_on_the_lk`, `oem_lpass_cfg`, `oem_modem_timeout_waiting`,
  `oem_powerkey`, `oem_ps_hold`, `oem_sdi_err_fatal`, `oemerr_unknown`, `pon_reason_0xb0`, `power_key`,
  `power_key_press`, `power_on_key`, `power_on_usb`, `reboot,factory_reset`,
  `reboot,its_just_so_hard`, `reboot,longkey,master_dc`, `reboot,master_dc,reset`,
  `reboot,memory_protect,hyp`, `reboot,sys_ldo_ok,pmic,sub`,
  `reboot,userspace_failed,watchdog_triggered`, `reboot_rtc`, `reboot_smpl`, `rpm_err`, `s3_wakeup`,
  `software_master`, `tool_by_pass_pwk`, `tz_err`, `usb_chg`, `warm,s3_wakeup`, `watchdog_apps_bite`,
  `watchdog_nonsec`, `watchdog_rpm_bite`, `watchdog_sdi_apps_reset`, `wdog_bite`, `wdog_reset`,
  `wireless_charger` and `xpu_err`.
- bootstat/bootstat.cpp:747-797 names some characters one bit away from newline and space wrongly;
  the values are those the expressions have.

## Model

| member | source | states |
|---|---|---|
| UdpPacket.DecodeEncode | fastboot/udp.cpp:49-91 | a packet that is sent is read back as it was |
| UdpPacket.EncodeDecode | fastboot/udp.cpp:49-91 | every datagram of at least a header is the encoding of what it is read as |
| UdpPacket.MatchesIsAnswers | fastboot/udp.cpp:93-99 | comparing header bytes accepts exactly the responses with the same number and the same or the error id |
| UdpProtocol.ProcessKeepsInv | fastboot/README.md:428-433 | within the window only a packet sent under the pending number can look like the next expected one, and processing it keeps the invariant |
| UdpProtocol.RepeatKeepsInv | fastboot/README.md:434-435 | within the window only a packet sent under the number last processed can look like the one before, and repeating the saved response keeps the invariant |
| UdpProtocol.ReceiveKeepsInv | fastboot/udp.cpp:266-313 | a response that matches is the one the device computed for the packet it processed under the pending number |
| UdpProtocol.StepKeepsInv | fastboot/README.md:397-437 | every step of host, device or network keeps the invariant, a call that fails with its packet unanswered included |
| UdpProtocol.StepKeepsSingle | fastboot/udp.cpp:253-326 | only a host that sends another packet under a used number makes a number stand for two packets |
| UdpProtocol.RunKeepsInv | fastboot/README.md:397-437 | so does every run, and careful callers keep one packet to a number |
| UdpProtocol.OnePacketPerNumber | fastboot/udp.cpp:253-326 | in every run, whatever callers do after failed calls, the device processed one of the packets sent under each number, the response accepted for a number is the one it computed, and its number is the host's or one ahead |
| UdpProtocol.ExactlyOnceInOrder | fastboot/README.md:397-437 | in every run in which a call after a failed one sends the packet that failed, the device has processed the packets the host issued, once each and in order, save perhaps the pending one, accepted responses are the computed ones, and its number is the host's or one ahead |
| UdpWindow.StalePacketIsServedTwice | fastboot/udp.cpp:93-99 | if a packet may outlive 2^16 exchanges, a run exists in which the first packet is processed twice |
| UdpWindow.CarelessRun | fastboot/udp.cpp:261-318 | if a call after a failed one may send another packet, a run exists in which the device processed one packet and the host got the response for another |
| UdpWindow.WindowExact | fastboot/udp.cpp:93-99 | lock step holds in all runs exactly when no packet outlives 2^16 exchanges and the packet of a failed call is sent again by the next, or when nothing is delivered |
| UdpProgress.AlwaysCompletes | fastboot/README.md:402-410 | in every reachable state one more delivery of the pending packet and one of its response complete the exchange, exactly when the saved response matches; with careful callers always |
| UdpProgress.DocumentedPackets | fastboot/README.md:439-503 | the documented packets, byte for byte |
| UdpTransport.UdpTransport.AwaitResponse | fastboot/udp.cpp:266-290 | datagrams that do not match are skipped; the one returned answers the outstanding datagram; otherwise the wait ended in silence, in a broken socket or in a datagram shorter than a header, as the result says |
| UdpTransport.UdpTransport.Attempt | fastboot/udp.cpp:256-290 | one transmission of the outstanding datagram and the wait for its response; it fails only if the send is refused or the wait ends in one of these ways |
| UdpTransport.UdpTransport.Turn | fastboot/udp.cpp:256-323 | one round of the helper: a response taken in, after silence a retransmission as long as attempts are left, or the end |
| UdpTransport.UdpTransport.SendSinglePacketHelper | fastboot/udp.cpp:253-326 | success means the whole continuation chain was answered without an error packet and as much of its data as fits is stored; a target error carries the text of the error packets; no response means every attempt was used, each met with silence; every error is one the log explains; between two accepted responses only identical datagrams are sent |
| UdpTransport.UdpTransport.SendChunk | fastboot/udp.cpp:219-247 | the next chunk extends what was sent by exactly the next bytes of the message |
| UdpTransport.UdpTransport.SendData | fastboot/udp.cpp:207-251 | the requests of a successful call carry exactly the message in chunks of at most the negotiated size; on failure they carry a prefix of it, and the log explains the failure |
| UdpTransport.UdpTransport.QueryTarget | fastboot/udp.cpp:153-171 | a successful query takes the device's number from the first two bytes of its answer; it fails only if the log excuses it within 4 attempts or the answer is too short |
| UdpTransport.UdpTransport.NegotiateSize | fastboot/udp.cpp:173-200 | the packet size becomes the smaller of both sides' and stays between 512 and 8192; it fails only if the log excuses it within 120 attempts or the answer is too short, of no version or below 512 |
| UdpTransport.UdpTransport.InitializeProtocol | fastboot/udp.cpp:153-203 | query, then initialisation from the number the device reported; it fails only where one of these does |
| UdpTransport.UdpTransport.Read | fastboot/udp.cpp:328-345 | succeeds exactly when the chain of answers ended without an error packet and fits; then exactly the concatenated payloads are stored; nothing is stored past the caller's length; an open transport fails only for a refused send, a broken socket, a short datagram, an error packet, data that do not fit, or a datagram sent 120 times with silence after each |
| UdpTransport.UdpTransport.Write | fastboot/udp.cpp:347-362 | succeeds exactly when the message was carried whole, ended without an error packet and no answer had data; at most 120 attempts per datagram; an open transport fails only for a refused send, a broken socket, a short datagram, an error packet, an answer with data, or a datagram sent 120 times with silence after each |
| UdpTransport.ExplainedIsExcused | fastboot/udp.cpp:253-326 | an error the log explains is one it excuses: a refused send, a broken socket, a short datagram, all attempts used with silence after the last, or an error packet at the end |
| UdpTransport.FailedPacketFailsMessage | fastboot/udp.cpp:219-247 | a message one of whose packets failed is not complete |
| UdpDelivery.RunAgrees | fastboot/udp.cpp:207-326 | the transport's log, read as the host half of a protocol run, reconstructs the host's state |
| UdpDelivery.CallAnswered | fastboot/udp.cpp:207-326 | with no assumption on earlier calls: after a call that succeeded the device has answered all its exchanges; from the second on they are those the host logged; for the first it processed a packet sent under that number, the one of a failed call before if it had processed that |
| UdpDelivery.DeliveredExactly | fastboot/udp.cpp:207-326 | after a failed call whose packet the device processed, a call is delivered exactly when its first packet is that packet |
| UdpDelivery.CallDelivered | fastboot/udp.cpp:207-326 | with careful callers the device served exactly the exchanges a call logged, no others, after failed calls as well |
| UdpDelivery.WriteDelivered | fastboot/udp.cpp:347-362 | with careful callers what the device processed for a successful write concatenates to the data, no packet above the negotiated size |
| UdpDelivery.ReadDelivered | fastboot/udp.cpp:328-345 | with careful callers a successful read returns what the device answered to it |
| UdpDelivery.SuccessfulWriteLost | fastboot/udp.cpp:261-318 | otherwise: a run in which a write after a failed call reports success and the device has processed only the other packet |
| UdpDelivery.FlagsExact | fastboot/udp.cpp:219-228 | every packet but the last is flagged as continued exactly when no answer is continued |
| DataUpdater.CursorsStayInside | fastboot/vendor_boot_img_utils.cpp:39-122 | across every sequence of operations, failing ones included, both cursors stay within the image and what lies beyond every position written is zero |
| DataUpdater.DataUpdater.Copy | fastboot/vendor_boot_img_utils.cpp:39-49 | copies exactly when both cursors have room, and appends the old bytes |
| DataUpdater.DataUpdater.Replace | fastboot/vendor_boot_img_utils.cpp:51-68 | skips the old bytes and appends the new ones, exactly when both fit |
| DataUpdater.DataUpdater.Skip | fastboot/vendor_boot_img_utils.cpp:70-78 | advances both cursors, leaving zeros behind, exactly when both fit |
| DataUpdater.DataUpdater.Seek | fastboot/vendor_boot_img_utils.cpp:80-90 | succeeds exactly when the offset lies within the image; then both cursors are there, and no data changes |
| VendorBootFormat.RoundUpExact | fastboot/vendor_boot_img_utils.cpp:206-208 | without wrap-around the result is the least multiple of the page size not below the value |
| VendorBootFormat.FinishReadBack | fastboot/vendor_boot_img_utils.cpp:197-204 | content and footer are both read back exactly when the end of the content that the footer overlaps equals it, or there is no footer and none appears |
| VendorBootFormat.FinishSpoils | fastboot/vendor_boot_img_utils.cpp:197-204 | what the footer overlaps is all of the content that is lost |
| VendorBootRoundTrip.ParseRender | fastboot/vendor_boot_img_utils.cpp:304-403 | an image laid out from fragments, names, types, board ids, DTB, bootconfig and footer parses to exactly these exactly when content and footer do not collide |
| VendorBootRoundTrip.ParseRenderSpoiled | fastboot/vendor_boot_img_utils.cpp:304-403 | otherwise it parses to these with the overlapped end of the content replaced |
| VendorBootFragment.CheckHeader | fastboot/vendor_boot_img_utils.cpp:137-162 | accepts exactly the headers with the right size, version, magic and page size |
| VendorBootFragment.EntriesTestExact | fastboot/vendor_boot_img_utils.cpp:323-326 | a table that fits its section passes the test, and a table that runs past the image passes exactly when its length is between the rest of the image and everything up to the end of the table |
| VendorBootFragment.TableBeyondImageAccepted | fastboot/vendor_boot_img_utils.cpp:318-326 | such an image |
| VendorBootFragment.FindUniqueRamdisk | fastboot/vendor_boot_img_utils.cpp:278-302 | finds an index exactly when one entry and no other has the name; tells none from several |
| VendorBootFragment.CopyFragments | fastboot/vendor_boot_img_utils.cpp:344-362 | the fragments are copied with the one replaced, or one does not fit |
| VendorBootFragment.RewriteFront | fastboot/vendor_boot_img_utils.cpp:340-372 | succeeds exactly when the old sizes add up to the header's ramdisk size and the new front fits; writes header, fragments, padding and DTB |
| VendorBootFragment.CopyTable | fastboot/vendor_boot_img_utils.cpp:374-388 | the table is copied with offsets recomputed and the size of the replaced entry set |
| VendorBootFragment.CopyAvbFooter | fastboot/vendor_boot_img_utils.cpp:197-204 | the finished image is the content, zeros, and the old footer at its end |
| VendorBootFragment.ContentIsRendered | fastboot/vendor_boot_img_utils.cpp:337-403 | the bytes the copying loops write are those of the parsed value with one fragment exchanged |
| VendorBootFragment.ReplaceVendorRamdiskFragment | fastboot/vendor_boot_img_utils.cpp:304-403 | succeeds exactly when the image parses, the sizes add up, the name is unique and the result fits; then it is the image of the parsed value with that fragment exchanged; truncated images are among those refused |
| VendorBootTheorems.MeaningPreserved | fastboot/vendor_boot_img_utils.cpp:304-403 | the new image has the same length and parses, to the same value except for the fragment exactly when the new content does not collide with the footer; offsets are prefix sums of sizes and the header holds their total in any case |
| VendorBootTheorems.NewContentEnd | fastboot/vendor_boot_img_utils.cpp:337-403 | where the new content ends and which bytes of the old image are its last 64, so that the condition can be tested before the call |
| VendorBootTheorems.ReadByOffset | fastboot/vendor_boot_img_utils.cpp:374-388 | reading a fragment at its recorded offset and size gives its data |
| VendorBootTheorems.SameLayout | fastboot/vendor_boot_img_utils.cpp:304-403 | only the ramdisk section changes its size, collision or not |
| VendorBootTheorems.ReplaceableAgain | fastboot/vendor_boot_img_utils.cpp:304-403 | a second replacement by the same name is of the same fragment and possible on the first image as well |
| VendorBootTheorems.LastWriteWins | fastboot/vendor_boot_img_utils.cpp:304-403 | replacing by X and then by Y gives byte for byte the image replaced by Y at once, exactly when the collision of the first is undone by the second; without a collision always |
| VendorBootCollision.FooterOverwritesBootconfig | fastboot/vendor_boot_img_utils.cpp:197-204 | an image whose replacement succeeds and loses part of the bootconfig |
| VendorBootCollision.FooterOverwritesWhole | fastboot/vendor_boot_img_utils.cpp:197-204 | the same for the whole ramdisk |
| VendorBootDefault.RenderedHolds | fastboot/vendor_boot_img_utils.cpp:211-275 | an image laid out with one whole ramdisk holds every section, its padding, the single table entry and the footer exactly when content and footer do not collide |
| VendorBootDefault.ReplaceDefaultVendorRamdisk | fastboot/vendor_boot_img_utils.cpp:211-275 | succeeds exactly when the sections lie within the image and the result fits; then it is the image of the parsed value with the ramdisk exchanged and a single table entry |
| VendorBootDefault.WholeMeaningPreserved | fastboot/vendor_boot_img_utils.cpp:211-275 | the length is kept, and header, DTB, bootconfig, table entry and footer are as they should be exactly when the new content does not collide with the footer |
| VendorBootDefault.SpoiledWhole | fastboot/vendor_boot_img_utils.cpp:211-275 | what a rewritten image parses to when its last section was overlapped |
| VendorBootDefault.WholeLastWriteWins | fastboot/vendor_boot_img_utils.cpp:211-275 | two replacements in a row give the image of the second alone, padding, table and footer included, exactly when the collision of the first is undone or the footer reaches into the header section; without a collision always |
| VendorBootDefault.OnlySizeChanges | fastboot/vendor_boot_img_utils.cpp:211-275 | if the footer reaches into the header section a replacement changes the ramdisk size in the header and nothing else |
| VendorBootDefault.OnlySizeTwice | fastboot/vendor_boot_img_utils.cpp:211-275 | and a second one is possible exactly when it is on the first image, with the same result |
| VendorBootReader.OneEntryAnnounced | fastboot/vendor_boot_img_utils.cpp:225-239 | the new version 4 header announces a table of 108 bytes with one entry of 108 bytes, and the size of the new ramdisk, footer or not |
| VendorBootReader.HeldIsOneFragment | fastboot/vendor_boot_img_utils.cpp:211-275 | an image that holds one whole ramdisk parses to one unnamed fragment at offset 0, with the same DTB, bootconfig and footer |
| VendorBootReader.OneFragmentRead | fastboot/vendor_boot_img_utils.cpp:211-275 | without a collision the result of a replacement parses to one fragment, the new ramdisk, and to the DTB, bootconfig and footer of the old image |
| StructLayout.VendorBootHeader | fastboot/vendor_boot_img_utils.cpp:137-162 | the magics are `VNDRBOOT` and `AVBf`, and each header field begins where the fields before it end |
| SuperLayout.SortByOffset | fs_mgr/liblp/super_layout_builder.cpp:88-93 | sorted by offset and a permutation |
| SuperLayout.FillGaps | fs_mgr/liblp/super_layout_builder.cpp:94-112 | fails exactly on overlap, otherwise the extents tile the space and are those given, in order, besides fillers |
| SuperLayout.AddGapExtents | fs_mgr/liblp/super_layout_builder.cpp:88-112 | the same for extents in any order |
| SuperLayout.OrderIrrelevant | fs_mgr/liblp/super_layout_builder.cpp:88-112 | extents overlap in sorted order exactly when two of them share a byte |
| SuperLayout.GetImageLayout | fs_mgr/liblp/super_layout_builder.cpp:114-199 | fails exactly when the builder exports nothing, the metadata padded to 4 KiB are larger than their space, a partition with an image has an extent that is not linear, a partition with space has no image, or two extents share a byte; otherwise tiles the super partition with the metadata and every image |
| SuperLayout.FlashedExtent | fs_mgr/liblp/super_layout_builder.cpp:114-199 | after flashing a layout every extent holds its part of its image |
| SuperLayout.PartitionHoldsImage | fs_mgr/liblp/super_layout_builder.cpp:114-199 | reading a logical partition through its extents gives the beginning of its image, of the length of the extents |
| FlashPlan.SuperFlashHelper.Add | fastboot/super_flash_helper.cpp:43-71 | what the helper records: the first image of a partition, its last size, and whether it will be flashed; what it takes is `FlashPlan.TakenExactly` |
| FlashPlan.TakenExactly | fastboot/super_flash_helper.cpp:43-71 | a list is taken exactly when the image of every flash of a dynamic partition is there, is no sparse file, and its partition can be resized; then the sizes are the last ones asked for and no image is a sparse file |
| FlashPlan.NamesInUserspace | fastboot/task.cpp:33-40 | an entry of the metadata stands for itself, a suffixed one for both slots |
| FlashPlan.NamesWithSlots | fastboot/task.cpp:68-80 | a flash names its slot or means the current one; without slots the name is plain |
| FlashPlan.CanOptimize | fastboot/task.cpp:142-161 | true exactly when the list holds reboot to fastboot, update-super and a dynamic flash in a row |
| FlashPlan.AddPartitions | fastboot/task.cpp:199-206 | succeeds exactly when the helper takes every flash task |
| FlashPlan.RemoveAbsorbed | fastboot/task.cpp:213-238 | removes exactly the tasks the super image makes unnecessary |
| FlashPlan.Initialize | fastboot/task.cpp:163-241 | optimises exactly when every condition holds, the layout of the sizes the helper collected among them, and otherwise leaves the list alone; so never without AB slots, for all slots, without a dynamic flash after reboot and update-super, for suffixed or writable metadata, or with a sparse image |
| FlashSemantics.LastFlashStays | fastboot/task.cpp:42-57 | after a documented task list a dynamic partition holds the last image flashed to it |
| FlashSemantics.HelperKnows | fastboot/super_flash_helper.cpp:43-71 | the helper will flash exactly the dynamic partitions of the list, with the first image and the last size |
| FlashSemantics.RemainingRuns | fastboot/task.cpp:213-238 | the remaining tasks run in the boot loader and treat all other partitions alike |
| FlashSemantics.SuperFlashPreserves | fastboot/task.cpp:163-241 | the optimised list runs through exactly when every first image is long enough for the last; then a flashed partition begins with what the original leaves in it, except exactly when it is dynamic and the first image, cut to the length of the last, is not the last; its length is that of the last in whole blocks |
| FlashSemantics.ReadableExactly | libsparse/output_file.cpp:324-340 | the images can be mapped over the sizes of the partitions exactly when every first image is long enough |
| FlashSemantics.WholeBlocksEqual | fs_mgr/liblp/builder.cpp:1069-1097 | for an image of whole blocks, beginning with it means being it |
| FlashSemantics.UnflashedEmptied | fastboot/task.cpp:119-132 | a dynamic partition that is not flashed is emptied by the optimised list |
| FlashSemantics.FlashedOncePreserves | fastboot/task.cpp:163-241 | with each partition flashed at most once the optimised list runs through and every flashed partition begins with its image |
| FlashSemantics.RemainingInOrder | fastboot/task.cpp:213-238 | the remaining tasks are those not absorbed, in their order |
| FlashSemantics.NothingNeedsUserspace | fastboot/task.cpp:213-238 | no remaining task reboots to userspace fastboot, updates super or flashes a dynamic partition |
| FlashSemantics.TwiceFlashedDiffers | fastboot/super_flash_helper.cpp:43-71 | a documented, optimisable list with two images for one partition whose outcome differs |
| FlashSemantics.ShorterFirstGivesUp | libsparse/output_file.cpp:324-340 | a list whose first image is too short: the original runs and the optimised one gives up |
| SuperFlash.SuperHoldsImages | fastboot/super_flash_helper.cpp:73-121 | flashing the layout for the helper's images and sizes gives every partition, read through its extents, the contents the semantics of the optimised list says |
| SuperFlash.LayoutWritable | libsparse/output_file.cpp:324-340 | no extent of the layout reads past what the mapping of its image shows |
| UsbWriter.LimitStaysLarge | fastboot/usb_linux.cpp:85-97 | whatever the kernel answers, the transfer size stays at least 16 KiB and only shrinks |
| UsbWriter.LimitExactly | fastboot/usb_linux.cpp:429-460 | it is halved for every lack of memory, down to 16 KiB |
| UsbWriter.GivesUpExactly | fastboot/usb_linux.cpp:429-481 | a fatal answer is a refusal, a lack of memory at 16 KiB, a failed reap, or a transfer that is bad or not in flight |
| UsbWriter.WaitsOnlyWhenFull | fastboot/usb_linux.cpp:483-507 | right after a submission the writer waits only with both transfers in flight or everything sent |
| UsbWriter.InFlightIff | fastboot/usb_linux.cpp:462-481 | a slot is in flight exactly when its last accepted transfer was not reaped since |
| UsbWriter.SubmittedOnceInOrder | fastboot/usb_linux.cpp:429-481 | in every proper log the accepted transfers are the data, once and in order, and no slot is submitted while in flight |
| UsbWriter.LinuxUsbTransport.SubmitUrb | fastboot/usb_linux.cpp:429-460 | submits the next piece to a free slot, halving the size on lack of memory; fails exactly on a fatal answer |
| UsbWriter.LinuxUsbTransport.ReapUrb | fastboot/usb_linux.cpp:462-481 | waits until the slot is free, in whatever order transfers complete; fails exactly on a fatal answer |
| UsbWriter.LinuxUsbTransport.Write | fastboot/usb_linux.cpp:418-507 | every request to the kernel is in order; fails exactly on a fatal answer; on success everything was sent, nothing is in flight, and the length is returned in 32 bits; the transfer size is kept for the next call |
| HexText.PrintedParses | fastboot/fastboot_driver.cpp:454-462 | what printf writes in hexadecimal strtol reads back |
| HexText.PrefixedParses | fastboot/fastboot_driver.cpp:366-377 | a number with a 0x prefix reads up to what follows it |
| HexText.NumberReads | fastboot/fastboot_driver.cpp:507-515 | what strtol makes of spaces, sign, prefix, digits and a rest, at the limits of a long as well |
| DriverLog.NoEarlierEnd | fastboot/fastboot_driver.cpp:464-525 | a response group ends at its first packet other than INFO and TEXT |
| DriverLog.TimedSnoc | fastboot/fastboot_driver.cpp:464-525 | one more packet that is read in time, with the timer started anew |
| DriverWords.StatusExactly | fastboot/fastboot_driver.cpp:485-521 | a packet has a status exactly when it starts with the bytes of the word, and the text is what follows up to a NUL |
| DriverWords.WordsArrive | fastboot/README.md:59-77 | a text behind `OKAY`, `FAIL`, `INFO`, `TEXT` or `DATA` arrives as that status with that text |
| DriverWords.DecidedExactly | fastboot/fastboot_driver.cpp:464-525 | the outcome is success exactly when the last packet starts with `OKAY` or `DATA` and only `INFO` and `TEXT` came before, a device failure for `FAIL`, an I/O error for a failed read, a bad response for any other word, a timeout otherwise |
| DriverWords.ReplyExactly | fastboot/fastboot_driver.cpp:471-521 | the response is the text behind `OKAY`, `FAIL` or `DATA`, and a size comes only behind `DATA` |
| DriverWords.InfosExactly | fastboot/fastboot_driver.cpp:474-493 | the collected payloads are the texts behind `INFO`, packet by packet |
| FastbootDriver.FastBootDriver.HandleResponse | fastboot/fastboot_driver.cpp:464-525 | reads one group; the bytes of the deciding packet give the outcome, the response and the data size, and the INFO payloads are appended in order; every wait starts with a new timer, and the call times out exactly when the last one exceeds 30 seconds |
| FastbootDriver.FastBootDriver.RawCommand | fastboot/fastboot_driver.cpp:437-452 | refuses long commands unwritten; otherwise one write and, if it was taken in full, one group |
| FastbootDriver.FastBootDriver.SendBuffer | fastboot/fastboot_driver.cpp:563-581 | one write, success exactly when taken in full; an empty buffer is refused |
| FastbootDriver.FastBootDriver.Download | fastboot/fastboot_driver.cpp:228-248 | command, buffer and response, each only after the one before succeeded; INFO payloads of both groups are collected |
| DriverTheorems.DownloadExact | fastboot/fastboot_driver.cpp:228-248 | a download that succeeds wrote `download:` with eight hexadecimal digits of the size and then the buffer, nothing else, and read two groups whose last packets start with `OKAY` or `DATA` |
| DriverTheorems.DownloadRefused | fastboot/fastboot_driver.cpp:228-248 | a download the device refuses was answered by `FAIL`, before the buffer, which is then not sent, or after all of it |
| DriverTheorems.CommandsSpelled | fastboot/fastboot_driver.cpp:366-377 | the commands are `download:` and `fetch:` with their numbers, of which those too large are left out |
| DriverTheorems.DocumentedDownload | fastboot/README.md:89-95 | the documented download of 0x1234 bytes, command and answers |
| DriverTheorems.UncheckedSize | fastboot/fastboot_driver.cpp:228-238 | with checks off the announced size is right exactly below 4 GiB |
| FastbootDriver.FastBootDriver.SparseWriteCallback | fastboot/fastboot_driver.cpp:598-629 | what was written followed by the buffer is what was kept and given; the buffer stays under 1024 bytes; every write is a positive multiple of 1024 |
| FastbootDriver.FastBootDriver.SparsePieces | fastboot/fastboot_driver.cpp:275-291 | the same over all callbacks up to the first failure |
| FastbootDriver.FastBootDriver.DownloadSparse | fastboot/fastboot_driver.cpp:260-298 | refuses sizes outside 1 to 2^32-1; success means command, whole chunks, one flush of the rest, and a response; failure means the command failed, the file was broken, a write was not taken in full, or the response to all of it says so |
| DriverTheorems.SparseExact | fastboot/fastboot_driver.cpp:260-298 | a sparse download that succeeds wrote the command and then exactly the file, every write but the last a multiple of 1024, none empty, and was answered by `OKAY` or `DATA` before and after |
| DriverFetch.ReadData | fastboot/fastboot_driver.cpp:326-342 | reads of at most 1 MiB follow each other through the announced size and go to the file in order; it fails only for a read that came short or a file that refused |
| DriverFetch.RunAndReadBuffer | fastboot/fastboot_driver.cpp:311-343 | succeeds exactly when command, data and final response are complete; the file grows by the data; otherwise the command failed, no data were announced, a read came short, the file refused, or the response says so |
| DriverFetch.ReadBackDecided | fastboot/fastboot_driver.cpp:311-343 | what was read back came behind a packet that starts with `DATA`, and a packet that starts with `OKAY` or `DATA` ended it |
| DriverFetch.FetchPartition | fastboot/fastboot.cpp:1431-1452 | succeeds exactly when the sizes are positive and every range was read back; the requested ranges follow each other through the partition and the file holds what they delivered |
| DriverFetch.EveryByteOnce | fastboot/fastboot.cpp:1443-1450 | every byte of the partition is requested by exactly one range, and no other byte |
| DriverFetch.FetchedWhole | fastboot/fastboot.cpp:1431-1452 | with a device that delivers the requested ranges the file is the partition |
| DriverFetch.ReadBackExactly | fastboot/fastboot_driver.cpp:315-327 | with a device that answers in full, a range is read back exactly when its size is from 1 to 2^31-1 |
| DriverFetch.FetchSucceedsExactly | fastboot/fastboot.cpp:1431-1452 | with such a device a partition is fetched exactly when the smaller of fetch size and partition size is below 2^31 |
| DriverTheorems.DataSizeUnderstood | fastboot/fastboot_driver.cpp:507-515 | the size in a DATA response is understood exactly below 2^31 |
| DriverTheorems.FetchCommandReads | fastboot/fastboot_driver.cpp:366-377 | offset and size can be read back from a fetch command whatever the partition is called |
| TcpFraming.BigEndianReads | fastboot/tcp.cpp:41-54 | eight bytes hold every 64-bit length |
| TcpFraming.FramingRoundTrip | fastboot/tcp.cpp:128-170 | for any messages and any read lengths the results followed by what is left are the messages in order, and no result crosses a message boundary |
| TcpFraming.WholeMessages | fastboot/tcp.cpp:128-154 | a reader that asks for at least the length of each message gets the messages as they were |
| TcpFraming.DocumentedFrames | fastboot/README.md:304-307 | the documented frames, byte for byte |
| TcpTransport.EncodeMessageLength | fastboot/tcp.cpp:50-54 | the loop writes the big-endian form |
| TcpTransport.ExtractMessageLength | fastboot/tcp.cpp:41-47 | the loop reads it |
| TcpTransport.SkipRest | fastboot/socket.cpp:212-231 | skipping what was sent leaves exactly the rest |
| TcpTransport.AllSkipped | fastboot/socket.cpp:202-234 | once all bytes are sent no buffer is left exactly when the last buffer is not empty |
| TcpTransport.SkipKeepsEnd | fastboot/socket.cpp:212-231 | a trailing empty buffer is never skipped, and no other becomes one |
| TcpTransport.SkipSent | fastboot/socket.cpp:212-229 | the inner loop computes this |
| TcpTransport.TcpSocket.Send | fastboot/socket.cpp:202-234 | for any pattern of partial sends the stream grows by the buffers, or by a prefix of them on failure; on a connection that takes bytes it succeeds exactly when the last buffer is not empty |
| TcpTransport.TcpSocket.ReceiveAll | fastboot/socket.cpp:55-73 | on a live connection delivers what was asked for or all there is; never reorders or drops |
| TcpTransport.TcpTransport.Write | fastboot/tcp.cpp:156-170 | a successful write appends exactly one frame; on a connection that takes bytes a write succeeds exactly when the message is not empty |
| TcpTransport.TcpTransport.Read | fastboot/tcp.cpp:128-154 | on a live connection returns the next bytes of the current or next message and keeps the count of unread bytes, also at the end; fails exactly at the end |
| TcpTransport.WriteMessages | fastboot/tcp.cpp:156-170 | messages written over any partial sends put exactly their frames on the connection |
| TcpTransport.ReadMessages | fastboot/tcp.cpp:128-154 | reads of any lengths over any partial receives return the messages' bytes in order with the right count left, and end early only at the end of the stream |
| TcpTransport.RoundTrip | fastboot/tcp.cpp:128-170 | what one end writes the other reads in order, each read within one message, and message by message if it asks for enough; all is sent exactly when no message is empty |
| BootImage.AndNotMask | fastboot/bootimg_utils.cpp:54-56 | masking with a power of two less one rounds down |
| BootImage.RoundUpExact | fastboot/bootimg_utils.cpp:54-56 | the mask expression is the least multiple not below the size |
| BootImage.RoundUpCovers | fastboot/bootimg_utils.cpp:54-56 | for any page size the mask expression is not below the size |
| BootImage.SectionsRead | fastboot/bootimg_utils.cpp:74-75 | padded sections are read back by their lengths, page by page |
| BootImage.PutAllReads | fastboot/bootimg_utils.cpp:124-129 | sections copied page by page are read back by their lengths, whatever lay there before |
| BootImage.PutAllAt | fastboot/bootimg_utils.cpp:124-129 | each byte afterwards is that of the section that covers it, else what was there |
| BootImage.PutField | fastboot/bootimg_utils.cpp:108-124 | setting a field changes that field only |
| MkBootImage.MakeOld | fastboot/bootimg_utils.cpp:90-130 | versions 0 to 2: the image is the given header with exactly the listed fields set and the sections copied over it page by page, for any page size for which nothing is written past the image |
| MkBootImage.PowersStayInside | fastboot/bootimg_utils.cpp:90-103 | which holds of every power of two from 64 on |
| MkBootImage.LargePage | fastboot/bootimg_utils.cpp:90-130 | where the header fits in a page of a power of two, the first page is the header and the rest is the sections padded with zeros |
| MkBootImage.DtbSize | fastboot/bootimg_utils.cpp:115-129 | the four bytes of the DTB size are those of the sections copied over them, else of the size, so the size is read back exactly when it fits and these bytes are its own |
| MkBootImage.DtbSizeMissed | fastboot/bootimg_utils.cpp:115-129 | which is whenever it fits, if no section reaches the field, as always with pages not below the header |
| MkBootImage.SmallPageLosesDtb | fastboot/bootimg_utils.cpp:124-129 | with pages of 1024 bytes a kernel of one page makes the DTB unreadable |
| MkBootImage.MakeV3 | fastboot/bootimg_utils.cpp:50-77 | versions 3 and 4: the first page is the header of that version and the rest is the sections padded with zeros |
| MkBootImage.OldHeaderReads | fastboot/bootimg_utils.cpp:103-122 | versions 0 to 2: the magic `ANDROID!`, the four load addresses moved by the base, and on a page that holds the header all other fields as given but the sizes, the header size and the DTB address moved by the base in 64 bits |
| MkBootImage.NewHeaderReads | fastboot/bootimg_utils.cpp:60-72 | versions 3 and 4: the magic, version and OS version of the given header, header size 1580, and zeros elsewhere on the page |
| StructLayout.BootHeader | fastboot/bootimg_utils.cpp:60-122 | each header field begins where the fields before it end |
| MkBootImage.MkBootImg | fastboot/bootimg_utils.cpp:79-130 | dies exactly on a second stage or DTB from version 3 on; otherwise the header is as stated above, and the sections are read back exactly when their sizes are below 4 GiB and for version 2 the bytes of the sections that lie over the DTB size, if any, are those of the size |
| MountSelect.StableSort | fs_mgr/fs_mgr_overlayfs_mount.cpp:429-431 | sorted, a permutation, and the last of equal paths stays the last |
| MountSelect.LastOfEach | fs_mgr/fs_mgr_overlayfs_mount.cpp:432-438 | one entry for each path, the last |
| MountSelect.Condense | fs_mgr/fs_mgr_overlayfs_mount.cpp:423-439 | a strictly sorted list in which every path finds the mount on top of it |
| MountSelect.ChosenAntichain | fs_mgr/fs_mgr_overlayfs_mount.cpp:470-484 | no chosen submount lies above or below another |
| MountSelect.MovedSubmounts | fs_mgr/fs_mgr_overlayfs_mount.cpp:470-512 | the moved submounts are top-most mounts below the mount point, an antichain; each submount is covered by exactly one exactly when every one that was to be moved out was |
| MountSelect.PassedOverStaysBehind | fs_mgr/fs_mgr_overlayfs_mount.cpp:484-486 | a submount that is passed over is no failure and lies below no moved submount |
| MountTable.CarriedAfterLeft | fs_mgr/fs_mgr_overlayfs_mount.cpp:289-307 | moving a subtree does not touch subtrees that lie apart |
| MountTable.MovedSubtree | fs_mgr/fs_mgr_overlayfs_mount.cpp:289-307 | a subtree moved there and back is as it was |
| OverlayMount.ReadFlags | fs_mgr/fs_mgr_overlayfs_mount.cpp:441-452 | the scan finds the propagation of the temporary directory, of the mount point or for `/system` of the root, and of the root |
| OverlayMount.MakePrivate | fs_mgr/fs_mgr_overlayfs_mount.cpp:460-468 | makes the mount point private, or the root for a `/system` that is no mount point |
| OverlayMount.MoveOut | fs_mgr/fs_mgr_overlayfs_mount.cpp:499-511 | one more subtree is parked whole, its top private |
| OverlayMount.MoveAllOut | fs_mgr/fs_mgr_overlayfs_mount.cpp:470-512 | exactly the chosen submounts are parked; reports exactly the failures, not the submounts passed over |
| OverlayMount.MoveBack | fs_mgr/fs_mgr_overlayfs_mount.cpp:517-525 | if the move works one more subtree is back where it was, with its propagation; otherwise it stays in its temporary directory |
| OverlayMount.MoveAllBack | fs_mgr/fs_mgr_overlayfs_mount.cpp:516-525 | the same for all; true exactly when every move worked |
| OverlayMount.MountOne | fs_mgr/fs_mgr_overlayfs_mount.cpp:400-535 | the whole operation computes the table the outcome is proved about; its status is true exactly when the overlay was mounted and no move out or back failed |
| OverlayRestored.MovedRestored | fs_mgr/fs_mgr_overlayfs_mount.cpp:516-525 | a submount that was moved back and all mounted inside it are at their old paths |
| OverlayRestored.PrivatisedExactly | fs_mgr/fs_mgr_overlayfs_mount.cpp:460-468 | before the moves exactly the mount point is made private, or the root for a `/system` that is no mount point |
| OverlayRestored.TakesOver | fs_mgr/fs_mgr_overlayfs_mount.cpp:441-452 | the propagation the overlay gets is that of what it covers, of the root for a bare `/system`, and shared if there is neither |
| OverlayRestored.ParkedWhole | fs_mgr/fs_mgr_overlayfs_mount.cpp:499-511 | a parked subtree has a private top, and moved back and made shared again it is as it was |
| OverlayRestored.StuckFound | fs_mgr/fs_mgr_overlayfs_mount.cpp:516-525 | one that could not be moved back is whole in its temporary directory, its top private |
| OverlayRestored.OutsideUnchanged | fs_mgr/fs_mgr_overlayfs_mount.cpp:460-533 | paths outside the mount point and the directories of stuck submounts reach what they did, the root with its propagation |
| OverlayRestored.MountPointAfter | fs_mgr/fs_mgr_overlayfs_mount.cpp:514-529 | the mount point reaches the overlay with the propagation of what it covers, or what it did if the overlay could not be mounted |
| OverlayRestored.NoneLost | fs_mgr/fs_mgr_overlayfs_mount.cpp:400-535 | every mount is there as often as before, plus the overlay, exactly when every moved submount came back |
| OverlayRestored.SubmountsRestored | fs_mgr/fs_mgr_overlayfs_mount.cpp:400-535 | all of these for the submounts chosen from any mount table and for every pattern of failures |
| MountAlternatives.TryEntry | fs_mgr/fs_mgr.cpp:974-1001 | at most two tries of an entry; what the system answers decides the outcome |
| MountAlternatives.MountWithAlternatives | fs_mgr/fs_mgr.cpp:938-1019 | entries of the group are tried in order, each at most twice, until one mounts; end index, device sharing, error and log are those the answers determine; the error is that of the first mount call exactly when no bad magic hides it |
| MountAlternatives.FailuresMountNothing | fs_mgr/fs_mgr.cpp:946-1003 | failed attempts mount nothing and stay within the group |
| MountAlternatives.ErrnoExact | fs_mgr/fs_mgr.cpp:967-1013 | the reported error is that of the first mount call that failed exactly when no entry of the group had a bad magic, or the error is `EINVAL` itself |
| MountErrno.FirstReportedExactly | fs_mgr/fs_mgr.cpp:937-1019 | it is so for all answers of the system exactly when the entry has no alternates behind it |
| MountErrno.BusyReportedInvalid | fs_mgr/fs_mgr.cpp:967-998 | otherwise: an entry that is busy and an alternate with a bad magic are reported as `EINVAL` |
| MountLaws.AttemptsCount | fs_mgr/fs_mgr.cpp:938-1019 | a group mounts its mount point once if at all, and no other |
| MountAll.Prepare | fs_mgr/fs_mgr.cpp:1446-1533 | an entry is mounted only if it takes part in the mode and every set-up step works; nothing but its device changes |
| MountAll.HandleMounted | fs_mgr/fs_mgr.cpp:1544-1570 | the encryption status of a mounted entry, or a fatal failure to unmount or encrypt it; the format flag is handed on |
| MountAll.HandleFailure | fs_mgr/fs_mgr.cpp:1587-1655 | a wiped, formattable entry is formatted and replayed, or recovery or an error is counted; which of these, and the status, is what `MountReaction.EveryReaction` and `MountStatus.StatusFromLog` say |
| MountAll.MountAll | fs_mgr/fs_mgr.cpp:1428-1665 | terminates for every fstab and every system and does exactly what the run determined by the answers does: log, wiped partitions, status; so it formats only formattable entries of the mode on wiped partitions, tells the encryption service to format a mounted entry exactly when the last check found a wiped partition, reacts to every failure as its error, entry and check call for, returns the status the log and the table give, and reports `/data` mounted only if it was, and always if it does not fail |
| MountStatus.StatusFromLog | fs_mgr/fs_mgr.cpp:1428-1665 | in every run the status is failure exactly when the table is empty, the run was broken off (no verified boot, or a mounted entry could not be unmounted or encrypted), the encryption service could not mount a failed group, or nothing was done about a failed group whose entry is not marked `no_fail`; otherwise it is the one the last event that gives a status gives |
| MountReaction.EveryReaction | fs_mgr/fs_mgr.cpp:1582-1655 | in every run, unless the error is `EBUSY` or `EACCES`: a wiped, formattable, encrypted `/data` is handed to the encryption service to format and, if that fails, to the formatter; any other wiped, formattable entry goes to the formatter; an encrypted one goes to the encryption service to mount; about all others, and with these errors, nothing is done |
| MountReaction.GroupErrorIs | fs_mgr/fs_mgr.cpp:946-1013 | the log tells the error of a group |
| MountPrepare.PreparedExactly | fs_mgr/fs_mgr.cpp:1446-1533 | an entry is mounted exactly when it takes part in the mode, is not mounted since the first stage, and every step its flags ask for works; the run is broken off exactly when verified boot must be opened for it and cannot be |
| MountPrepare.TouchedOnly | fs_mgr/fs_mgr.cpp:1446-1480 | in every run nothing is done to `/`, `/system` or, in the mode for user data, to anything but `/data`; every entry something is done to shares its mount point with an entry of the mode |
| MountLaws.EveryRun | fs_mgr/fs_mgr.cpp:1428-1665 | what every run obeys, by induction over its turns |
| MountLaws.TurnLawful | fs_mgr/fs_mgr.cpp:1443-1660 | every turn of the loop keeps it |
| MountLaws.WipedShrinks | fs_mgr/fs_mgr.cpp:1588-1623 | wiped partitions only become fewer, by the formats in the log |
| MountLaws.FormattedOnce | fs_mgr/fs_mgr.cpp:1588-1623 | a run formats only partitions wiped at its start and none twice |
| MountExact.MountedOnceExact | fs_mgr/fs_mgr.cpp:1443-1541 | in all runs every mount point is mounted at most once, exactly when among the entries of the mode no mount point comes again after its group |
| MountExact.GroupedMetOnce | fs_mgr/fs_mgr.cpp:946-949 | which holds when entries for one mount point are consecutive |
| MountExact.TwiceRun | fs_mgr/fs_mgr.cpp:1443-1541 | otherwise: answers with which it is mounted twice |
| MountExact.OwnFormatsExact | fs_mgr/fs_mgr.cpp:1554-1570 | in all runs mounted entries are encrypted with formatting only on wiped partitions, exactly when no entry of the mode on a wiped partition comes before, or formattable at, a group with an entry to be encrypted on one that is not |
| MountExact.MixedRun | fs_mgr/fs_mgr.cpp:1554-1623 | otherwise: answers with which the flag raised for one entry reaches the other |
| MountExact.DataFormattedForCache | fs_mgr/fs_mgr.cpp:1561-1563 | an fstab and answers with which `/data` is formatted because the cache was wiped |
| MountErrno.GuardExact | fs_mgr/fs_mgr.cpp:1587-1623 | in all runs no group whose first mount call found its partition busy or inaccessible is formatted, by the loop or by the encryption service, exactly when every formattable entry of the mode on a wiped partition has no alternates behind it |
| MountErrno.FirstErrorIs | fs_mgr/fs_mgr.cpp:946-998 | the log tells the error of the first mount call of a group |
| MountErrno.BusyRun | fs_mgr/fs_mgr.cpp:1587-1623 | otherwise: answers with which a busy partition is formatted |
| MountErrno.BusyDataFormatted | fs_mgr/fs_mgr.cpp:1587-1623 | such a table for `/data` |
| BitErrors.BytesDiffer | bootstat/bootstat.cpp:587-589 | the number of differing bits is at most 8, symmetric, and zero exactly for equal bytes |
| BitErrors.DiffIsBits | bootstat/bootstat.cpp:587-589 | the count is the number of positions at which the binary digits differ |
| BitErrors.AllowedIs | bootstat/bootstat.cpp:616-620 | one error for each byte, one more for matches of up to two bytes |
| BitErrors.NumError | bootstat/bootstat.cpp:601-623 | returns the number of errors exactly when each byte and each tail of the window has few enough |
| BitErrors.Find | bootstat/bootstat.cpp:648-658 | the first match from the start position on |
| BitErrors.RFind | bootstat/bootstat.cpp:630-645 | the last exact match, or without one the last fuzzy match |
| BitCorrection.CorrectForBitError | bootstat/bootstat.cpp:664-680 | the windows are the greedy matches of the original string, each becomes the needle; true exactly when the string changed |
| BitCorrection.OneCorrection | bootstat/bootstat.cpp:664-680 | this determines windows and result |
| BitCorrection.CorrectionBounded | bootstat/bootstat.cpp:664-680 | same length, nothing outside the windows changes, at most two bits a byte, and for needles of more than two bytes at most one bit a byte on average in every window and overall |
| ReasonText.DamageRepaired | bootstat/bootstat.cpp:601-680 | a damaged reason is repaired exactly when each byte has at most two bit errors and each tail at most one a byte, one more in the last two bytes; otherwise it is left alone |
| UnderlineRepair.CorrectForBitErrorOrUnderline | bootstat/bootstat.cpp:685-694 | true exactly when a pass changed its input; exactly when the string changed, if the needle has no underline or no shift brings its two forms near each other |
| UnderlineRepair.UndoneIsUndoable | bootstat/bootstat.cpp:685-694 | if the second pass undoes the first, a shift brings the two forms of the needle near each other |
| UnderlineRepair.ShiftUndoes | bootstat/bootstat.cpp:685-694 | conversely such a shift gives a text that is repaired to itself, unless the second pass matches nearer |
| UnderlineRepair.KernelPanicUndone | bootstat/bootstat.cpp:502-518 | this happens to the known reason `kernel_panic` |
| UnderlineRepair.HwResetSafe | bootstat/bootstat.cpp:229-500 | and cannot happen to `hw_reset` of the reason map |
| BootReason.TransformReason | bootstat/bootstat.cpp:698-704 | every character becomes printable, no blank, lower case; such strings and no others are left alone |
| ReasonText.StandardExactly | bootstat/bootstat.cpp:698-704 | letters become lower case, blanks underlines, and what is not printable question marks |
| ReasonText.QuotesExactly | bootstat/bootstat.cpp:716-738 | the likely quotes are those with at most one bit error, but for `7` and `g` |
| ReasonText.NewlinesExactly | bootstat/bootstat.cpp:740-769 | so are the likely newlines, but for `*` and `J` |
| ReasonText.BlanksExactly | bootstat/bootstat.cpp:771-797 | the likely blanks are those with at most one bit error in a space or a tab |
| ReasonText.EndsExactly | bootstat/bootstat.cpp:822-829 | a reason ends at a newline or, if quoted, at a quote, never at letters, digits, blanks or what separates reasons |
| ReasonText.TailsSpelled | bootstat/bootstat.cpp:812-820 | the tail of a key is what follows `reboot,`, `kernel_panic,sysrq,` or `kernel_panic,` |
| ReasonText.ShortKeys | bootstat/bootstat.cpp:807-811 | keys up to the length of `cold` are not tried, and up to that of `reboot,cold` without a tail |
| ReasonText.KnownFirst | bootstat/bootstat.cpp:802-811 | the known reasons are repaired before the keys |
| BootReason.RepairKey | bootstat/bootstat.cpp:808-821 | short keys do nothing; otherwise the key is tried, and if it corrects nothing and is long its part after a known prefix |
| BootReason.Cut | bootstat/bootstat.cpp:822-829 | cuts at the first terminating character |
| BootReason.GetSubreason | bootstat/bootstat.cpp:799-831 | at most 256 printable, blank-free, lower-case characters: the text at the position, repaired against every entry of both tables in order, cut at its first likely end and cleaned |

## Left out

- UdpTransport: the sequence counter is an unbounded integer of which packets carry 16 bits; the `int` overflow after 2^31 packets is not modelled.
- UdpTransport.UdpTransport.AwaitResponse: the inbox is a finite script, because the receive loop has no bound of its own on packets that do not match.
- UdpDelivery.RunAgrees: datagrams of the device are not longer than the packet size the host receives with, so none is cut off.
- VendorBootFragment.ReplaceVendorRamdiskFragment: a table entry size of 108 and, once both size tests have passed, a table inside the image are required (the source reads out of bounds otherwise, see `VendorBootFragment.EntriesTestExact`); the image and one page together are at most 4 GiB, so that rounding does not wrap around. The struct layouts are those of Android's `bootimg.h` and libavb, which are not part of this repository.
- VendorBootDefault.ReplaceDefaultVendorRamdisk: the image and one page together are at most 4 GiB, so that rounding does not wrap around.
- File input and output of `replace_vendor_ramdisk`, which wraps the two replacements.
- FlashPlan.CanOptimize: assumes what the source takes for granted of a list: with a reboot to fastboot as the only task it reads past the list, without a flash after reboot and update-super it uses a flash task that is not there, and for a flash of all slots it aborts.
- FlashPlan.SuperFlashHelper.Add: whether a logical partition can be resized, and what the metadata builder exports for given sizes, are functions of the plan, because liblp's metadata builder is not modelled; partition names with a colon are not modelled.
- SuperFlash.SuperHoldsImages: that the builder gives each partition its size rounded up to a block is a premise (fs_mgr/liblp/builder.cpp:1069-1097); pages of the host are as large as logical blocks; super images above 8 TB, for which no layout is made, are not modelled.
- `AddResizeTasks` and parsing of fastboot-info: list building around the optimiser.
- FastbootDriver.FastBootDriver.HandleResponse: error texts are not modelled.
- DriverFetch.FetchPartition: the size variables and the file are parameters; ending the program is a failed result.
- `TcpSocket::Send` for a single buffer, which only the handshake uses, and the handshake itself.
- TcpTransport.TcpSocket.Send: a send of some bytes takes at least one or fails, and sends of none go on only as long as a finite script says, where the source would repeat them for ever.
- MkBootImage.MkBootImg: the page size is at least 44 and such that header and sections stay inside the image (`MkBootImage.StaysInside`); otherwise the source copies the kernel over the fields that place the other sections, or writes past the image. The struct layouts are those of Android's `bootimg.h`. Setting the command line is left out.
- OverlayMount.MountOne: what comes of moving a submount out or back and whether the overlay can be mounted are parameters; setting a propagation works wherever something is mounted. SELinux contexts are not modelled.
- MountAll.Prepare: set-up steps are oracles that may fail and may change the device of the entry; making the device of a read-only root read-only, reverting a checkpoint before a format, overlay mounts after a success and the crypto property are left out.
- MountAlternatives.TryEntry: one `__mount` call is one oracle answer; its own retries and the file system check between the tries are not modelled.
- MountAll.MountAll: a format that succeeds makes the partition no longer wiped, and nothing else changes which partitions are wiped.
- BootReason.GetSubreason: the two tables are parameters of which no needle is empty, as in the source; characters are classified as in the C locale.
- UnderlineRepair.CorrectForBitErrorOrUnderline: that the report is exact is proved for needles that cannot undo themselves; of the others it fails for those that `UnderlineRepair.ShiftUndoes` reaches. All the keys listed above are among these. A needle such as `_aca`, in neither table, whose shift has a nearer match before it, is decided by neither.
- The remaining programs of the repository (init, debuggerd, llkd, gatekeeperd and others) are not part of this model.

# Firmware update packages, host EVs and firmware parsers of the BMC

This project models the serializers, parsers and event protocols that the Canopy BMC image adds on top of OpenBMC, and
proves what they promise. Check all files with `dafny verify dfyconfig.toml`.

Code that changes things step by step is modelled by classes and methods with loops, each proved against a
specification on values; the properties are lemmas about the specifications and hold for every input, every run or
every reachable state.

**PLDM packages** (`Pldm*.dfy`, `Crc32*.dfy`, `FrameCheck.dfy`). `PldmWriter` is the package creator script: one file
with a cursor, placeholders, seeks back and patches. `PldmLayout` is the package it is meant to leave, with every length
and offset in place. `PldmReader` is an independent reader after DSP0267 (package header information, firmware device
and downstream device identification areas, component image information area, checksums). The round trip holds for all
accepted inputs exactly when the package header identifier is 16 bytes long: the script accepts other lengths, but
patches the header size at the fixed offset 17, so even a reader that is told where the identifier ends does not find
the size behind it (`HeaderSizeInPlace`). `FrameCheck` is the CRC-32 as the division of IEEE 802.3, and `PldmAcceptance`
spells out what the script accepts.

**EV store, boot override, BIOS table** (`Ev*.dfy`, `BootOptions.dfy`, `Packet.dfy`, `Stream.dfy`). `EvWorld` is the
service as a transition system over host requests, user settings, delivery of queued PropertiesChanged signals, writes
of other providers, and restarts. Each step carries the outcome of every save (on disk, not written, or cut short) and
of every D-Bus call it makes. `EvDaemon` and `EvSmif` are the classes of the daemon, with the callbacks nested as in the
program, proved to make exactly those steps; `EvPackets` takes the host's view, `EvFiles` the view of the file, and
`EvPrintedOptions` lays out the boot options. What failures do is stated by exact conditions, and `EvFailures` has
concrete inputs: a change that is not saved, or not written to the table, leaves the table behind unless it leaves the
same options displayed (`TableAfterRequest`, `UnsavedChange`), a table that could not be read is written back without
the attributes of other providers (`PublishKeepsForeign`), a table write that fails while an option disappears leaves
its attribute behind for good (`StaleAttributeStays`), and a consumed one-time boot is armed again when its save, the
reading or the clearing of the enabled flag fails (`RearmsExactlyWhen`), or taken for a persistent one when only the
flag could be cleared (`SurvivingTargetBecomesPersistent`). The header of the store promises a write followed by a
rename; the code copies the file, so the model lets a save be cut short and proves what loading the remainder gives.

**FRU encoder** (`Fru*.dfy`). The encoder and a reader after the IPMI FRU Information Storage Definition v1.0, sections
8 and 10 to 13, which finds every predefined field under its name (`FruNames`). A field of one byte gets the type/length
byte 0xC1, which is the end mark, so it is lost together with all that follow it. The round trip is an equivalence for
all inputs. A product offset that exceeds a byte wraps into an earlier area, whose bytes may happen to be those of the
product area, so in that case the condition speaks of the bytes of the block that the offset wraps to. `FruExamples` has
inputs on both sides of it.

**UEFI and platform definition walkers** (`Uefi*.dfy`, `PlatDef*.dfy`). The volume scan over an input stream that stays
failed once a read fails (UEFI PI Specification, Volume 3, section 3.2), images laid out from their parts, the choice of
a bundle, and the record walk.

**SMBIOS reception** (`Smbios*.dfy`). The writer, the ROM service and the stored file, and what holds over every run of
packets. The writer's header says that a record is appended as it is; the code unwraps every packet as a counted list of
records, and the model follows the code. The header of the ROM service announces that the file is stored after the
response; the code stores it before.

## Model

| member | source | states |
|---|---|---|
| PldmPackage.RoundTrip | meta-canopy/scripts/pldm_fwup_pkg_creator.py:941-1011 | For every input the script accepts (revisions 1 to 4, any images): a DSP0267 reader that follows only the written counts, lengths, offsets and sizes, knows the length of every descriptor type, and divides for both checksums, recovers the header size, every device record, downstream record, descriptor, component record and image, and from revision 4 on the manifest that was given, if and only if the package header identifier is 16 bytes long; a reader that is told how long the identifier is does no better |
| PldmPackage.HeaderSizeInPlace | meta-canopy/scripts/pldm_fwup_pkg_creator.py:906-924 | For every accepted input and every identifier length: the two bytes behind identifier and revision hold the package header length if and only if the identifier has 16 bytes, because the size is patched in at the fixed offset 17 |
| PldmPackage.LongIdentifierIsLost | meta-canopy/scripts/pldm_fwup_pkg_creator.py:906-924 | A concrete accepted input with a 17-byte identifier: the size behind its identifier is not the header length, and neither reader recovers its contents |
| PldmPackage.ImagesInPlace | meta-canopy/scripts/pldm_fwup_pkg_creator.py:849-862 | For every component i the bytes of the finished package at its offset and of its size are exactly image i; offsets are consecutive from the package header length, so ranges do not overlap |
| PldmPackage.PatchesTouchPlaceholdersOnly | meta-canopy/scripts/pldm_fwup_pkg_creator.py:856-862 | After all seeks and patches every byte outside the two size bytes and the reserved offset and size fields is what was written first, and the file has the same length |
| PldmPackage.SizePatchIsLayout | meta-canopy/scripts/pldm_fwup_pkg_creator.py:906-924 | With a 16-byte identifier, patching two bytes at offset 17 turns the header written with size zero into the header with that size in its size field |
| PldmPackage.RecordsLength | meta-canopy/scripts/pldm_fwup_pkg_creator.py:768-847 | What is patched into the component records never changes their length, so the offsets computed before patching stay right |
| PldmPackage.PackageShape | meta-canopy/scripts/pldm_fwup_pkg_creator.py:906-938 | The patched fields and the checksums together are exactly as long as the header length that was computed beforehand |
| PldmPackage.ChecksumsHold | meta-canopy/scripts/pldm_fwup_pkg_creator.py:865-903 | A reader computing the frame check sequence of IEEE 802.3 over the stretches DSP0267 gives both checksums finds the written values and the declared header size |
| PldmAcceptance.AcceptedExactlyWhen | meta-canopy/scripts/pldm_fwup_pkg_creator.py:941-1015 | The inputs for which a package is left behind, spelled out: every range and length limit as a number, the admitted option and descriptor values listed, record and header lengths as sums over what is given |
| PldmAcceptance.SameHeaderSize | meta-canopy/scripts/pldm_fwup_pkg_creator.py:906-924 | The header length is the sum of the sizes of all fields and records |
| PldmRoundTrip.ReadDeviceArea | meta-canopy/scripts/pldm_fwup_pkg_creator.py:340-487 | The device area reads back as its records, whatever follows it |
| PldmRoundTrip.ReadDownstreamArea | meta-canopy/scripts/pldm_fwup_pkg_creator.py:490-699 | The downstream area (revision 2 and up; nothing before that) reads back as its records, whatever follows it |
| PldmRoundTrip.ReadDeviceBody | meta-canopy/scripts/pldm_fwup_pkg_creator.py:438-487 | In every revision the fields covered by a device record length, manifest included from revision 4 on, read back, with no byte over |
| PldmRoundTrip.ReadDownstreamBody | meta-canopy/scripts/pldm_fwup_pkg_creator.py:627-699 | The same for a downstream record, with its version string and comparison stamp present only under option bit 0 |
| PldmRoundTrip.ReadDescriptors | meta-canopy/scripts/pldm_fwup_pkg_creator.py:259-337 | A descriptor list, vendor-defined ones included, reads back from its count |
| PldmRoundTrip.ReadComponents | meta-canopy/scripts/pldm_fwup_pkg_creator.py:768-847 | Component records read back with the images their places point to |
| PldmWriter.CreatePackage | meta-canopy/scripts/pldm_fwup_pkg_creator.py:941-1015 | The file left behind is the specified package, exactly for the accepted inputs, and no file is left behind for any other: each range check, packed-field overflow and unsupported value is one of the conditions |
| PldmWriter.PrepareDevice | meta-canopy/scripts/pldm_fwup_pkg_creator.py:373-436 | The length added up field by field equals the bytes of the finished record, and a device is refused exactly when an option, component index, text, descriptor or length is out of range |
| PldmWriter.PrepareDownstream | meta-canopy/scripts/pldm_fwup_pkg_creator.py:532-626 | The same for a downstream device |
| PldmWriter.PrepareRecordDescriptors | meta-canopy/scripts/pldm_fwup_pkg_creator.py:259-337 | Accepts exactly the descriptor lists with an initial type first and the demanded length for each type; the result is their concatenation in order |
| PldmWriter.SetOptions | meta-canopy/scripts/pldm_fwup_pkg_creator.py:381-389 | One bit per listed option, refused exactly when an option is not supported |
| PldmWriter.WriteFwDeviceIdentificationArea | meta-canopy/scripts/pldm_fwup_pkg_creator.py:340-487 | Appends the device area or refuses, exactly when some device is out of range or there are more than 255 |
| PldmWriter.WriteDownstreamDeviceIdentificationArea | meta-canopy/scripts/pldm_fwup_pkg_creator.py:490-699 | Appends the downstream area or refuses, exactly when some device is out of range or there are more than 255 |
| PldmWriter.WriteComponentImageInfoArea | meta-canopy/scripts/pldm_fwup_pkg_creator.py:745-862 | Writes placeholders, seeks back and patches, and leaves the file as if the final offsets and sizes had been written at once; refuses exactly what the fields cannot hold |
| PldmWriter.PatchPlaces | meta-canopy/scripts/pldm_fwup_pkg_creator.py:849-862 | The back-patching loop turns blank places into the places of the images and changes nothing else |
| PldmWriter.GetComponentComparisonStamp | meta-canopy/scripts/pldm_fwup_pkg_creator.py:702-742 | The given stamp under option 1 (refused outside 1 to 0xFFFFFFFE), 0xFFFFFFFF otherwise |
| PldmWriter.UpdatePkgHeaderSize | meta-canopy/scripts/pldm_fwup_pkg_creator.py:906-924 | Patches the length the finished header will have, and leaves the cursor at the end |
| PldmWriter.WritePkgHeaderChecksum | meta-canopy/scripts/pldm_fwup_pkg_creator.py:865-875 | Appends the CRC of everything written before, patches included |
| PldmWriter.WritePkgPayloadChecksum | meta-canopy/scripts/pldm_fwup_pkg_creator.py:878-903 | Appends the CRC of the whole concatenated payload, although it is computed image by image |
| PldmWriter.AppendComponentImages | meta-canopy/scripts/pldm_fwup_pkg_creator.py:927-938 | Copying line by line appends every image whole and in order |
| PldmWriter.WritePkgHeaderInfo | meta-canopy/scripts/pldm_fwup_pkg_creator.py:170-230 | Appends the package header information with size zero, or refuses exactly when a field cannot hold its value |
| Crc32.ChainAllIsFlat | meta-canopy/scripts/pldm_fwup_pkg_creator.py:893-901 | The checksum fed from image to image equals the checksum of their concatenation, for any number of images |
| Crc32.Chain | meta-canopy/scripts/pldm_fwup_pkg_creator.py:896-899 | Continuing a CRC over a second block gives the CRC of both blocks together |
| Crc32.ChecksumIsFrameCheckSequence | meta-canopy/scripts/pldm_fwup_pkg_creator.py:865-903 | For all data the checksum is what IEEE 802.3, section 3.2.9, defines: the bits low bit first, times x^32, the first 32 complemented, divided by G(x) written by its exponents, the remainder complemented |
| Crc32Check.CheckValue | meta-canopy/scripts/pldm_fwup_pkg_creator.py:893-901 | The checksum of the digits 1 to 9 is 0xCBF43926 |
| Bytes.PackedBit | meta-canopy/scripts/pldm_fwup_pkg_creator.py:438-487 | Bit i of a little-endian bit array is bit i mod 8 of byte i / 8 |
| EvOrderedMap.SetRefinesPut | meta-canopy/meta-hpe/meta-common/recipes-hpe/gxp-chif-service/gxp-chif-service/src/ev_storage.cpp:133-176 | Setting a name is the put of an insertion-ordered map, accepted exactly when name and data are within their limits and the whole map still fits the file |
| EvOrderedMap.DelRefinesRemove | meta-canopy/meta-hpe/meta-common/recipes-hpe/gxp-chif-service/gxp-chif-service/src/ev_storage.cpp:178-189 | Deleting is the removal of the map, done exactly when the name is there, and keeps the order of the others |
| EvOrderedMap.AbstractSize | meta-canopy/meta-hpe/meta-common/recipes-hpe/gxp-chif-service/gxp-chif-service/src/ev_storage.cpp:202-216 | The serialized size is a function of the map alone |
| EvProtocol.ServeRefinesAnswer | meta-canopy/meta-hpe/meta-common/recipes-hpe/gxp-chif-service/gxp-chif-service/src/smif_service.cpp:167-333 | Each request is answered as the ordered map answers it (codes as numbers, names, the stored data or the four bytes of a memory variable, counts, remaining size), and the list left behind stands for the new map |
| EvRuns.RepliesRefineMap | meta-canopy/meta-hpe/meta-common/recipes-hpe/gxp-chif-service/gxp-chif-service/src/smif_service.cpp:167-333 | Over every sequence of requests, with each save succeeding or failing, all replies are those of the ordered map with a byte capacity |
| EvRuns.CapacityOverRuns | meta-canopy/meta-hpe/meta-common/recipes-hpe/gxp-chif-service/gxp-chif-service/src/ev_storage.cpp:133-216 | In every state of every run (host requests, user settings, signals, other providers, restarts, torn saves): names unique, 1 to 31 bytes, data at most 3966 bytes, serialized size at most 65536, and remaining plus serialized size exactly 65536 |
| EvTableRuns.BoundsFromEmpty | meta-canopy/meta-hpe/meta-common/recipes-hpe/gxp-chif-service/gxp-chif-service/src/ev_storage.cpp:133-216 | The same from a first start without a file, spelled out: with any mix of accepted and rejected operations and failing saves the limits hold in every reachable state |
| EvTableRuns.EveryReachableState | meta-canopy/meta-hpe/meta-common/recipes-hpe/gxp-chif-service/gxp-chif-service/src/ev_storage.cpp:31-47 | From a first start without a file, over every run in which saves and table calls succeed: the bounds hold, the file is the store, the table is what the store says |
| EvTableRuns.SetThenGet | meta-canopy/meta-hpe/meta-common/recipes-hpe/gxp-chif-service/gxp-chif-service/src/smif_service.cpp:231-307 | A value set successfully, under any name, is what get-by-name returns later, and get-by-index under some index: the data itself, or 40 60 54 00 for a name that starts with CQHMEM; over every run that leaves the name alone, restarts included while the saves before them succeed, and without a sync in between for the two names that the boot service itself writes |
| EvPackets.SetPacketIsReadBack | meta-canopy/meta-hpe/meta-common/recipes-hpe/gxp-chif-service/gxp-chif-service/src/smif_service.cpp:231-307 | The same in whole packets, as the host sees it: 1 to 3966 bytes in a set packet that was answered with success come back unchanged in the answer packet to a get-by-name packet |
| EvPackets.RequestRoundTrip | meta-canopy/meta-hpe/meta-common/recipes-hpe/gxp-chif-service/gxp-chif-service/src/smif_service.cpp:167-300 | Every request that a host can form is decoded as that request, whatever pads its packet |
| EvPackets.RefusedChanges | meta-canopy/meta-hpe/meta-common/recipes-hpe/gxp-chif-service/gxp-chif-service/src/smif_service.cpp:190-276 | For every set-or-delete packet: exactly which are refused with which code, and which flag goes first |
| EvPackets.RefusedQueries | meta-canopy/meta-hpe/meta-common/recipes-hpe/gxp-chif-service/gxp-chif-service/src/smif_service.cpp:167-300 | The same for the queries |
| EvPackets.ExchangeIsExecute | meta-canopy/meta-hpe/meta-common/recipes-hpe/gxp-chif-service/gxp-chif-service/src/smif_service.cpp:111-156 | In every state within the bounds the answer packet reads back as the reply of the transition system, so the error-3 branch for want of space is never taken in a 4096-byte buffer; its header holds its size, the command with bit 15 set, and sequence number, service and version of the request |
| EvProtocol.ReplyRoundTrip | meta-canopy/meta-hpe/meta-common/recipes-hpe/gxp-chif-service/gxp-chif-service/src/smif_service.cpp:111-156 | The host reads exactly the reply that was laid out |
| EvProtocol.RepliesFitPackets | meta-canopy/meta-hpe/meta-common/recipes-hpe/gxp-chif-service/gxp-chif-service/src/smif_service.cpp:126-134 | Every reply takes at most 4012 of the 4096 bytes of a packet |
| EvProtocol.RepliesAreSendable | meta-canopy/meta-hpe/meta-common/recipes-hpe/gxp-chif-service/gxp-chif-service/src/smif_service.cpp:309-333 | No reply of a store within its bounds overflows a field of its layout |
| EvSmif.SentIsReadBack | meta-canopy/meta-hpe/meta-common/recipes-hpe/gxp-chif-service/gxp-chif-service/src/packet.hpp:98-111 | In a full-size buffer every reply is sent as it is and read back, header included |
| EvSmif.SentInSmallBuffer | meta-canopy/meta-hpe/meta-common/recipes-hpe/gxp-chif-service/gxp-chif-service/src/smif_service.cpp:126-134 | In a buffer of any size: what fits is sent whole, a variable that does not fit becomes error 3 if that fits, anything else is dropped |
| EvSmif.SmifService.Handle | meta-canopy/meta-hpe/meta-common/recipes-hpe/gxp-chif-service/gxp-chif-service/src/smif_service.cpp:717-783 | One EV request packet leaves the store, both observers, the settings, the table and the response buffer exactly as the transition system says, for every outcome of saves and D-Bus calls; without a store the answer is the error, or the empty statistics, of the command |
| EvSmif.SmifService.HandleWithoutStore | meta-canopy/meta-hpe/meta-common/recipes-hpe/gxp-chif-service/gxp-chif-service/src/smif_service.cpp:171-174 | The answers of the four commands when no store is attached, where a short get-by-name is refused before the missing store is |
| EvSmif.WithoutStoreCodes | meta-canopy/meta-hpe/meta-common/recipes-hpe/gxp-chif-service/gxp-chif-service/src/smif_service.cpp:167-333 | Those answers, command by command |
| EvSmif.SmifService.HandleSetDeleteEv | meta-canopy/meta-hpe/meta-common/recipes-hpe/gxp-chif-service/gxp-chif-service/src/smif_service.cpp:190-276 | All flag combinations, short payloads, over-long data, the empty set that deletes, and failing saves, each with the new state of every object |
| EvSmif.SmifService.HandleGetEvByName | meta-canopy/meta-hpe/meta-common/recipes-hpe/gxp-chif-service/gxp-chif-service/src/smif_service.cpp:278-307 | The reply of the transition system is what the buffer holds |
| EvSmif.SmifService.HandleGetEvByIndex | meta-canopy/meta-hpe/meta-common/recipes-hpe/gxp-chif-service/gxp-chif-service/src/smif_service.cpp:167-188 | The reply of the transition system is what the buffer holds |
| EvSmif.SmifService.HandleEvStats | meta-canopy/meta-hpe/meta-common/recipes-hpe/gxp-chif-service/gxp-chif-service/src/smif_service.cpp:309-333 | The reply of the transition system is what the buffer holds |
| EvSmif.SmifService.BuildEvDataResponse | meta-canopy/meta-hpe/meta-common/recipes-hpe/gxp-chif-service/gxp-chif-service/src/smif_service.cpp:111-156 | Zeroing the buffer and copying four fields into it leaves the specified layout, and bytes behind it untouched; error 3, or nothing at all, in smaller buffers |
| EvPersistence.LoadOfSave | meta-canopy/meta-hpe/meta-common/recipes-hpe/gxp-chif-service/gxp-chif-service/src/ev_storage.cpp:231-297 | Loading what a save wrote gives back the same entry list, and the file is as long as the serialized size |
| EvPersistence.LoadOfTruncation | meta-canopy/meta-hpe/meta-common/recipes-hpe/gxp-chif-service/gxp-chif-service/src/ev_storage.cpp:31-111 | Loading any prefix of a saved file gives exactly the entries that lie wholly inside it, and an error code exactly when the magic number is cut |
| EvFiles.SavedLayout | meta-canopy/meta-hpe/meta-common/recipes-hpe/gxp-chif-service/gxp-chif-service/src/ev_storage.cpp:231-297 | A save writes EVS1, the number of entries, and each entry with its name in 32 NUL-padded bytes, its length in two, and its data |
| EvFiles.LoadOfFile | meta-canopy/meta-hpe/meta-common/recipes-hpe/gxp-chif-service/gxp-chif-service/src/ev_storage.cpp:31-111 | Loading any file with a whole header: error for another magic or a count beyond 10000, else exactly the leading entries that are whole, at most 3966 bytes long, within the count, and within 65536 bytes together |
| EvFiles.EveryBody | meta-canopy/meta-hpe/meta-common/recipes-hpe/gxp-chif-service/gxp-chif-service/src/ev_storage.cpp:74-106 | Every file body is a list of whole entries with a cut-off one behind it, so no file is left out |
| EvFiles.LoadOfShortFile | meta-canopy/meta-hpe/meta-common/recipes-hpe/gxp-chif-service/gxp-chif-service/src/ev_storage.cpp:31-72 | Loading a file cut inside its header |
| EvEntries.CountBound | meta-canopy/meta-hpe/meta-common/recipes-hpe/gxp-chif-service/gxp-chif-service/src/ev_storage.cpp:68-72 | The file limit leaves room for at most 1927 entries, so the count limit of 10000 never rejects a saved file |
| EvEntries.SetKeepsGood | meta-canopy/meta-hpe/meta-common/recipes-hpe/gxp-chif-service/gxp-chif-service/src/ev_storage.cpp:133-176 | An accepted set keeps names unique and every limit |
| EvEntries.DelKeepsGood | meta-canopy/meta-hpe/meta-common/recipes-hpe/gxp-chif-service/gxp-chif-service/src/ev_storage.cpp:178-189 | A delete keeps names unique and every limit |
| EvDaemon.EvStorage.Set | meta-canopy/meta-hpe/meta-common/recipes-hpe/gxp-chif-service/gxp-chif-service/src/ev_storage.cpp:133-176 | The in-place update or the append, the save and both observers, as one step of the transition system |
| EvDaemon.EvStorage.Del | meta-canopy/meta-hpe/meta-common/recipes-hpe/gxp-chif-service/gxp-chif-service/src/ev_storage.cpp:178-189 | The erase, the save and both observers, as one step |
| EvDaemon.EvStorage.DeleteAll | meta-canopy/meta-hpe/meta-common/recipes-hpe/gxp-chif-service/gxp-chif-service/src/ev_storage.cpp:191-195 | The clearing, the save and both observers, as one step |
| EvDaemon.EvStorage.SaveAndNotify | meta-canopy/meta-hpe/meta-common/recipes-hpe/gxp-chif-service/gxp-chif-service/src/ev_storage.cpp:218-229 | Observers are told in the order of registration, and only after a save that succeeded |
| EvDaemon.EvStorage.Save | meta-canopy/meta-hpe/meta-common/recipes-hpe/gxp-chif-service/gxp-chif-service/src/ev_storage.cpp:231-297 | The file holds the image of the entries, or is untouched, or is a prefix of the image, by the outcome |
| EvDaemon.EvStorage.Load | meta-canopy/meta-hpe/meta-common/recipes-hpe/gxp-chif-service/gxp-chif-service/src/ev_storage.cpp:31-111 | Reading the stream field by field gives the specified code and entries on any bytes, an empty store without a file, and an error with an empty store for a file that cannot be opened |
| EvDaemon.EvStorage.ReadEntries | meta-canopy/meta-hpe/meta-common/recipes-hpe/gxp-chif-service/gxp-chif-service/src/ev_storage.cpp:74-106 | The loop keeps exactly the entries that are whole and within the limits |
| EvDaemon.EvStorage.RemainingSizeOf | meta-canopy/meta-hpe/meta-common/recipes-hpe/gxp-chif-service/gxp-chif-service/src/ev_storage.cpp:202-216 | The accumulated size and what it leaves of the limit |
| EvTableRuns.StoreStaysOnDisk | meta-canopy/meta-hpe/meta-common/recipes-hpe/gxp-chif-service/gxp-chif-service/src/ev_storage.cpp:218-229 | While saves succeed, a restart at any point of any run finds exactly the entries that were there |
| EvBootRuns.SyncAgrees | meta-canopy/meta-hpe/meta-common/recipes-hpe/gxp-chif-service/gxp-chif-service/src/boot_service.cpp:276-306 | Whatever settings can be read (an unreadable one counts as its default), a sync leaves CQTBOOTNEXT present exactly when one-time boot is enabled and the target resolves (and holds its encoding if it fits), CQHBOOTORDER reordered in the persistent case (if it has an option and the result fits) and untouched in the others, and no other entry changed ever |
| EvPrintedOptions.NumberRead | meta-canopy/meta-hpe/meta-common/recipes-hpe/gxp-chif-service/gxp-chif-service/src/boot_service.cpp:53-72 | For every name and number: the name stands for that option number if and only if it is CQSBOOT and the number in four hexadecimal digits, each in either case |
| EvPrintedOptions.ArmsBestOption | meta-canopy/meta-hpe/meta-common/recipes-hpe/gxp-chif-service/gxp-chif-service/src/boot_service.cpp:144-200 | On a store of options laid out from number and display name, with one-time boot enabled: the number of the first option that carries the most wanted text goes to CQTBOOTNEXT, low byte first, if it fits |
| EvPrintedOptions.MovesBestOption | meta-canopy/meta-hpe/meta-common/recipes-hpe/gxp-chif-service/gxp-chif-service/src/boot_service.cpp:202-223 | Without one-time boot its number goes to the front of CQHBOOTORDER if the result fits, and CQTBOOTNEXT goes |
| EvPrintedOptions.NothingWanted | meta-canopy/meta-hpe/meta-common/recipes-hpe/gxp-chif-service/gxp-chif-service/src/boot_service.cpp:276-306 | If no display name carries a wanted text, CQTBOOTNEXT goes and the order stays |
| EvBootRuns.SyncIsIdempotent | meta-canopy/meta-hpe/meta-common/recipes-hpe/gxp-chif-service/gxp-chif-service/src/boot_service.cpp:276-306 | A second sync under the same settings leaves the same store, whatever its saves and calls do |
| EvBootRuns.SignalsDrain | meta-canopy/meta-hpe/meta-common/recipes-hpe/gxp-chif-service/gxp-chif-service/src/boot_service.cpp:35-48 | Handling a signal changes neither settings nor table and sends no signal; a host request sends at most three |
| EvBootRuns.CascadeEnds | meta-canopy/meta-hpe/meta-common/recipes-hpe/gxp-chif-service/gxp-chif-service/src/boot_service.cpp:243-274 | After as many deliveries as signals are queued none is left and the settings are unchanged: no feedback loop |
| EvBootRuns.ConsumeClears | meta-canopy/meta-hpe/meta-common/recipes-hpe/gxp-chif-service/gxp-chif-service/src/boot_service.cpp:243-274 | What a consumed one-time boot leaves in the store and in mode, source and enabled flag, for every combination of a failing save, an unreadable flag and failing settings writes |
| EvBootRuns.OnlyConsumptionClears | meta-canopy/meta-hpe/meta-common/recipes-hpe/gxp-chif-service/gxp-chif-service/src/boot_service.cpp:243-264 | Every other host request leaves the settings alone and sends no signal |
| EvBootRuns.ConsumedStaysConsumed | meta-canopy/meta-hpe/meta-common/recipes-hpe/gxp-chif-service/gxp-chif-service/src/boot_service.cpp:243-306 | When the host deletes CQTBOOTNEXT or everything and the enabled flag is cleared, one-time boot is disabled and CQTBOOTNEXT absent in every later state until the user enables it or the host writes the entry, restarts included; with all three writes arriving the settings stay Regular, Default, disabled until a user event |
| EvBootRuns.NeverRearms | meta-canopy/meta-hpe/meta-common/recipes-hpe/gxp-chif-service/gxp-chif-service/src/boot_service.cpp:276-306 | While one-time boot is disabled and CQTBOOTNEXT absent, it stays so over every such run, with saves and D-Bus calls failing as they may |
| EvBootRuns.RearmsExactlyWhen | meta-canopy/meta-hpe/meta-common/recipes-hpe/gxp-chif-service/gxp-chif-service/src/boot_service.cpp:243-306 | For every outcome of every save, read and write of the request and of the next sync: the sync arms a consumed one-time boot again exactly when the save, the reading or the clearing of the enabled flag failed, the flag is read now, the target it reads in the settings that are left (an unreadable one counting as its default) resolves among the options there were before, and its encoding fits in the place of the old value; never after a clearing of the whole store |
| EvBootRuns.SurvivingTargetBecomesPersistent | meta-canopy/meta-hpe/meta-common/recipes-hpe/gxp-chif-service/gxp-chif-service/src/boot_service.cpp:266-305 | With the enabled flag cleared and source or mode not, the next sync, whatever it can read, takes what it finds of the one-time target for a persistent one and moves it to the front of CQHBOOTORDER |
| EvFailures.RearmsForOneFailure | meta-canopy/meta-hpe/meta-common/recipes-hpe/gxp-chif-service/gxp-chif-service/src/ev_storage.cpp:178-229 | A concrete store and delete request: with only the save failing, only the flag unreadable, or only flag and source not cleared, CQTBOOTNEXT comes back; with nothing failing it does not |
| BootOptions.ReorderMovesToFront | meta-canopy/meta-hpe/meta-common/recipes-hpe/gxp-chif-service/gxp-chif-service/src/boot_service.cpp:120-142 | The option comes first and once, all others keep relative order and multiplicity, only an odd trailing byte is dropped, a second time changes nothing, and duplicate-free stays duplicate-free |
| BootOptions.ReorderAllKeepsDistinct | meta-canopy/meta-hpe/meta-common/recipes-hpe/gxp-chif-service/gxp-chif-service/src/boot_service.cpp:120-142 | Any sequence of selections keeps a duplicate-free order duplicate-free |
| BootOptions.ReorderBootOrder | meta-canopy/meta-hpe/meta-common/recipes-hpe/gxp-chif-service/gxp-chif-service/src/boot_service.cpp:120-142 | The decode, erase, insert and encode loops compute the specified order |
| BootOptions.MatchIsBest | meta-canopy/meta-hpe/meta-common/recipes-hpe/gxp-chif-service/gxp-chif-service/src/boot_service.cpp:103-118 | The match carries the earliest keyword that any option carries, and is the first option to carry it; none only if no option carries any |
| BootOptions.ContainsMeans | meta-canopy/meta-hpe/meta-common/recipes-hpe/gxp-chif-service/gxp-chif-service/src/boot_service.cpp:103-118 | A display name carries a text exactly when the text stands somewhere in it |
| BootOptions.FindMatch | meta-canopy/meta-hpe/meta-common/recipes-hpe/gxp-chif-service/gxp-chif-service/src/boot_service.cpp:103-118 | The nested loops compute that match |
| BootOptions.ParseBack | meta-canopy/meta-hpe/meta-common/recipes-hpe/gxp-chif-service/gxp-chif-service/src/bios_config_service.cpp:43-77 | The display name of any option is read back whole, every character outside printable ASCII as a question mark, whatever its other fields and however it ends; an option without a name has none |
| BootOptions.ReadBootOptionName | meta-canopy/meta-hpe/meta-common/recipes-hpe/gxp-chif-service/gxp-chif-service/src/bios_config_service.cpp:43-77 | The loop up to the NUL computes the specified name on any bytes |
| BootOptions.OwnNames | meta-canopy/meta-hpe/meta-common/recipes-hpe/gxp-chif-service/gxp-chif-service/src/boot_service.hpp:23-24 | The two names the service writes are no boot-option names, so its own writes never touch the published options |
| EvDaemon.BootService.SyncEffective | meta-canopy/meta-hpe/meta-common/recipes-hpe/gxp-chif-service/gxp-chif-service/src/boot_service.cpp:276-306 | The reads, the resolution and the EV writes with all callbacks they trigger, as one step |
| EvDaemon.BootService.OnEvChanged | meta-canopy/meta-hpe/meta-common/recipes-hpe/gxp-chif-service/gxp-chif-service/src/boot_service.cpp:243-264 | Reacts only to an unguarded removal of CQTBOOTNEXT while one-time boot reads as enabled |
| EvDaemon.BootService.ClearOneTime | meta-canopy/meta-hpe/meta-common/recipes-hpe/gxp-chif-service/gxp-chif-service/src/boot_service.cpp:225-241 | Deletes under the guard flag and leaves the flag down again |
| EvDaemon.BootService.ApplyOneTime | meta-canopy/meta-hpe/meta-common/recipes-hpe/gxp-chif-service/gxp-chif-service/src/boot_service.cpp:190-200 | The EV write with its callbacks, as one step |
| EvDaemon.BootService.ApplyPersistent | meta-canopy/meta-hpe/meta-common/recipes-hpe/gxp-chif-service/gxp-chif-service/src/boot_service.cpp:202-223 | The EV write with its callbacks, or nothing without an order of at least one option |
| EvDaemon.BootService.ResolveTarget | meta-canopy/meta-hpe/meta-common/recipes-hpe/gxp-chif-service/gxp-chif-service/src/boot_service.cpp:150-188 | The loop over the store and the match, as specified |
| EvDaemon.BootService.ClearOverrideSettings | meta-canopy/meta-hpe/meta-common/recipes-hpe/gxp-chif-service/gxp-chif-service/src/boot_service.cpp:266-274 | The three settings writes in order, each arriving or not |
| EvTableRuns.TableMatchesOverRuns | meta-canopy/meta-hpe/meta-common/recipes-hpe/gxp-chif-service/gxp-chif-service/src/bios_config_service.cpp:26-41 | In every state of every run in which saves and table calls succeed and nobody else writes boot attributes, the boot attributes on D-Bus are exactly what the store gives rise to, first entry first, although other EV names are ignored |
| EvPrintedOptions.IdRead | meta-canopy/meta-hpe/meta-common/recipes-hpe/gxp-chif-service/gxp-chif-service/src/bios_config_service.cpp:79-94 | For all digits and anything behind them: an option goes by its third and fourth digit; shorter and other names have no ID |
| EvPrintedOptions.TableShowsOptions | meta-canopy/meta-hpe/meta-common/recipes-hpe/gxp-chif-service/gxp-chif-service/src/bios_config_service.cpp:111-144 | On a store of options laid out from number and display name, a table that agrees has exactly the attributes Boot and the last two digits, each with the display name of the first option that has one |
| EvPrintedOptions.PublishesOptions | meta-canopy/meta-hpe/meta-common/recipes-hpe/gxp-chif-service/gxp-chif-service/src/bios_config_service.cpp:146-165 | A publication that is written leaves exactly those attributes and every other one that was read and not managed |
| EvTableRuns.OtherNamesLeaveTable | meta-canopy/meta-hpe/meta-common/recipes-hpe/gxp-chif-service/gxp-chif-service/src/bios_config_service.cpp:33-38 | A request about a name that does not start with CQSBOOT leaves table and managed keys alone, unless it clears the store |
| EvUnsaved.TableAfterRequest | meta-canopy/meta-hpe/meta-common/recipes-hpe/gxp-chif-service/gxp-chif-service/src/bios_config_service.cpp:111-165 | For every request and every outcome of the save and the D-Bus calls: from a table that agrees, the request leaves agreement if and only if the change is both saved and written to the table, or the request, told from the list before it, leaves every option displayed as it was |
| EvUnsaved.UnsavedChange | meta-canopy/meta-hpe/meta-common/recipes-hpe/gxp-chif-service/gxp-chif-service/src/ev_storage.cpp:218-229 | In particular, after a change that could not be saved the table agrees exactly when the request leaves every option displayed as it was: it is refused, its name is no option, an entry in front decides already, or old and new value leave the same displayed; a clearing only if nothing was displayed |
| EvUnsaved.OursReplaced | meta-canopy/meta-hpe/meta-common/recipes-hpe/gxp-chif-service/gxp-chif-service/src/bios_config_service.cpp:116-144 | Replacing, adding or taking out one entry changes the published attributes exactly when no entry in front decides and what it displayed differs from what is displayed instead |
| EvFailures.UnsavedOptionIsMissing | meta-canopy/meta-hpe/meta-common/recipes-hpe/gxp-chif-service/gxp-chif-service/src/ev_storage.cpp:218-229 | A concrete first option whose save fails is in the store and missing from the table |
| EvTableRuns.PublishKeepsForeign | meta-canopy/meta-hpe/meta-common/recipes-hpe/gxp-chif-service/gxp-chif-service/src/bios_config_service.cpp:146-161 | Publishing keeps an attribute that is neither managed nor generated exactly when the table could be read first or could not be written at all |
| EvFailures.UnreadTableLosesAttribute | meta-canopy/meta-hpe/meta-common/recipes-hpe/gxp-chif-service/gxp-chif-service/src/bios_config_service.cpp:167-178 | A concrete clearing of the store during which the table cannot be read costs another provider its attribute |
| EvTableRuns.PublishMatches | meta-canopy/meta-hpe/meta-common/recipes-hpe/gxp-chif-service/gxp-chif-service/src/bios_config_service.cpp:146-161 | For every outcome of the table calls: a publication that is written leaves agreement exactly when the table could not be read first or every boot attribute in it is managed or generated; one that is not written, exactly when the table showed the store already |
| EvFailures.StaleOptionStays | meta-canopy/meta-hpe/meta-common/recipes-hpe/gxp-chif-service/gxp-chif-service/src/bios_config_service.cpp:151-161 | A concrete deletion of the only option during which the table cannot be written: its attribute outlives the next successful publication |
| EvTableRuns.StaleAttributeStays | meta-canopy/meta-hpe/meta-common/recipes-hpe/gxp-chif-service/gxp-chif-service/src/bios_config_service.cpp:151-161 | A table write that fails while an option disappears leaves its attribute behind over every later run in which the option does not come back: the managed keys are replaced before the write |
| EvTableRuns.ForeignKeysOverRuns | meta-canopy/meta-hpe/meta-common/recipes-hpe/gxp-chif-service/gxp-chif-service/src/bios_config_service.cpp:111-165 | An attribute whose key is not managed at the start and never generated, whatever it is called, keeps its value over the whole run |
| EvDaemon.BiosConfigService.Publish | meta-canopy/meta-hpe/meta-common/recipes-hpe/gxp-chif-service/gxp-chif-service/src/bios_config_service.cpp:111-165 | The loops over store and managed keys leave the table and the managed keys as specified; of two names with the same low digits the first entry wins |
| EvDaemon.BiosConfigService.OnEvChanged | meta-canopy/meta-hpe/meta-common/recipes-hpe/gxp-chif-service/gxp-chif-service/src/bios_config_service.cpp:33-38 | The callback filter, as specified |
| FruNames.RoundTrip | meta-canopy/meta-hpe/meta-common/recipes-hpe/fru-synthesizer/files/fru_encoder.cpp:122-167 | For all inputs: a reader of sections 8 and 10 to 13 of the FRU definition finds chassis type, language, date, every predefined field under its own name and all custom fields in order, each as given up to its first 63 bytes and empty if absent, if and only if no field is one byte long, every length and the board offset fit their bytes, and the product offset fits too or wraps to a block that begins with version, length, fixed byte, fields and end mark of the product area over a sum of zero |
| FruRoundTrip.ContentsRoundTrip | meta-canopy/meta-hpe/meta-common/recipes-hpe/fru-synthesizer/files/fru_encoder.cpp:122-167 | The same for the areas as lists of fields |
| FruRoundTrip.CopyNeeds | meta-canopy/meta-hpe/meta-common/recipes-hpe/fru-synthesizer/files/fru_encoder.cpp:156-160 | Such bytes can stand there only for a product whose own area fits its length byte |
| FruRoundTrip.ReadsHeldArea | meta-canopy/meta-hpe/meta-common/recipes-hpe/fru-synthesizer/files/fru_encoder.cpp:17-58 | An area reads as these fields exactly where its version, a length byte within the bytes, its fixed bytes, the print of the fields with the end mark and a sum of zero stand, and no field is one byte long |
| FruExamples.WrappedProduct | meta-canopy/meta-hpe/meta-common/recipes-hpe/fru-synthesizer/files/fru_encoder.cpp:142-160 | A concrete input whose product area starts at block 257 while the header names block 1: it reads back for chassis kind 0, when the chassis area has the bytes of the product area, and loses the product for every other kind |
| FruExamples.OneByteManufacturer | meta-canopy/meta-hpe/meta-common/recipes-hpe/fru-synthesizer/files/fru_encoder.cpp:10-32 | A product with a manufacturer name of one byte is lost, whatever the byte |
| FruNames.RoundTripUpToSeventeenCustoms | meta-canopy/meta-hpe/meta-common/recipes-hpe/fru-synthesizer/files/fru_encoder.cpp:122-167 | With at most 17 custom fields in all, the round trip holds if and only if no field is one byte long |
| FruRoundTrip.AreaRoundTrip | meta-canopy/meta-hpe/meta-common/recipes-hpe/fru-synthesizer/files/fru_encoder.cpp:17-58 | One area is read back, whatever follows, if and only if it has no field of one byte and at most 255 blocks |
| FruRoundTrip.NeverOneByte | meta-canopy/meta-hpe/meta-common/recipes-hpe/fru-synthesizer/files/fru_encoder.cpp:10-13 | No reader can ever see a field of length one: its type/length byte 0xC0 or 1 is the end mark 0xC1 |
| FruRoundTrip.FieldsBack | meta-canopy/meta-hpe/meta-common/recipes-hpe/fru-synthesizer/files/fru_encoder.cpp:17-32 | Fields without a one-byte one read back up to the end mark |
| FruRoundTrip.Layout | meta-canopy/meta-hpe/meta-common/recipes-hpe/fru-synthesizer/files/fru_encoder.cpp:142-166 | Header and areas tile the image without overlap or gap, the header names the block of each area and no other area, each area starts at eight times its offset, and header and areas each sum to zero mod 256 |
| FruRoundTrip.SeventeenCustomFieldsFit | meta-canopy/meta-hpe/meta-common/recipes-hpe/fru-synthesizer/files/fru_encoder.cpp:46-58 | Header and predefined fields take at most 116 blocks, so with at most 17 custom fields no length or offset byte overflows |
| FruRoundTrip.OverflowingBoardIsLost | meta-canopy/meta-hpe/meta-common/recipes-hpe/fru-synthesizer/files/fru_encoder.cpp:151-155 | A board offset beyond a byte always loses the contents |
| Fru.Build | meta-canopy/meta-hpe/meta-common/recipes-hpe/fru-synthesizer/files/fru_encoder.cpp:122-167 | The encoder leaves the specified image |
| Fru.FinalizeArea | meta-canopy/meta-hpe/meta-common/recipes-hpe/fru-synthesizer/files/fru_encoder.cpp:46-58 | End mark, padding loop, overwritten length byte and checksum leave an area of whole blocks that sums to zero |
| Fru.AppendField | meta-canopy/meta-hpe/meta-common/recipes-hpe/fru-synthesizer/files/fru_encoder.cpp:17-32 | A field cut to 63 bytes behind its type/length byte |
| Fru.ZeroChecksum | meta-canopy/meta-hpe/meta-common/recipes-hpe/fru-synthesizer/files/fru_encoder.cpp:36-44 | The loop computes the byte that brings the stretch to zero mod 256 |
| Fru.BuildBoardArea | meta-canopy/meta-hpe/meta-common/recipes-hpe/fru-synthesizer/files/fru_encoder.cpp:76-97 | The specified area, whose fields stand in the order of section 11 |
| UefiExtraction.ExtractsFirst | meta-canopy/meta-hpe/meta-common/recipes-hpe/gxp-chif-service/gxp-chif-service/src/uefi_fv.cpp:89-252 | On every image made of gaps, other volumes and well-formed FFS2 volumes: exactly the payload of the first matching file in the first volume of that name that has one, less 4 bytes of a RAW or 20 of a GUID-defined section header |
| UefiExtraction.ExtractedIsWanted | meta-canopy/meta-hpe/meta-common/recipes-hpe/gxp-chif-service/gxp-chif-service/src/uefi_fv.cpp:89-252 | On any bytes, a non-empty result is all of a file with the wanted GUID behind its header and exactly its section header, and the file starts 8-byte aligned inside the file list of an FFS2 volume with the wanted name on a 64 KiB boundary |
| UefiImage.ExtractsFromPrinted | meta-canopy/meta-hpe/meta-common/recipes-hpe/gxp-chif-service/gxp-chif-service/src/uefi_fv.cpp:89-252 | From every image laid out from blocks without the volume signature, other volumes and FFS2 volumes, with every offset and constant written out and padding computed without the walker, exactly what is expected of its parts is extracted |
| UefiFv.ExtractFfsFile | meta-canopy/meta-hpe/meta-common/recipes-hpe/gxp-chif-service/gxp-chif-service/src/uefi_fv.cpp:89-252 | The outer scan terminates and computes the specified result on any stream and size |
| UefiFv.WalkVolume | meta-canopy/meta-hpe/meta-common/recipes-hpe/gxp-chif-service/gxp-chif-service/src/uefi_fv.cpp:153-246 | The inner walk terminates and ends with data, by giving up, or by going on, on a stream that may have failed |
| UefiFv.ReadFile | meta-canopy/meta-hpe/meta-common/recipes-hpe/gxp-chif-service/gxp-chif-service/src/uefi_fv.cpp:190-243 | Section stripping and the payload read, with each way to fail |
| UefiFv.VolumeStep | meta-canopy/meta-hpe/meta-common/recipes-hpe/gxp-chif-service/gxp-chif-service/src/uefi_fv.cpp:110-119 | The step is the least positive multiple of 64 KiB that covers the volume, one block for a volume of length zero |
| PlatDef.SelectsTheBundle | meta-canopy/meta-hpe/meta-common/recipes-hpe/gxp-chif-service/gxp-chif-service/src/platdef_extract.cpp:194-261 | On every chain of well-formed bundles before a non-bundle tail: the table data of the first bundle listing the platform, nothing if none does, without an ID a sole bundle only; a blob without a bundle passes whole |
| PlatDef.StopsAtInconsistent | meta-canopy/meta-hpe/meta-common/recipes-hpe/gxp-chif-service/gxp-chif-service/src/platdef_extract.cpp:194-261 | A bundle whose header sizes disagree ends the walk: earlier bundles are still found by platform, and nothing else is |
| PlatDef.SelectedIsInside | meta-canopy/meta-hpe/meta-common/recipes-hpe/gxp-chif-service/gxp-chif-service/src/platdef_extract.cpp:194-261 | On any bytes what is selected is a slice of the blob |
| PlatDef.SelectPlatDefBundle | meta-canopy/meta-hpe/meta-common/recipes-hpe/gxp-chif-service/gxp-chif-service/src/platdef_extract.cpp:194-261 | The walk terminates on any bytes and computes the specified slice |
| PlatDefRecords.ParsesToLastWins | meta-canopy/meta-hpe/meta-common/recipes-hpe/gxp-chif-service/gxp-chif-service/src/platdef_extract.cpp:447-542 | Parsing a serialized record list maps each segment ID to the CPLD mux of the last segment that has one, over all engine records before an end marker, an empty record or one that is cut off; and to nothing when the first record is not of table-data size |
| PlatDefRecords.EntriesComeFromSegments | meta-canopy/meta-hpe/meta-common/recipes-hpe/gxp-chif-service/gxp-chif-service/src/platdef_extract.cpp:493-534 | On any bytes each entry comes from a counted segment wholly inside an engine record that the walk came to |
| PlatDefRecords.EnterIsLastWins | meta-canopy/meta-hpe/meta-common/recipes-hpe/gxp-chif-service/gxp-chif-service/src/platdef_extract.cpp:522-525 | Entering segments one after the other keeps the last one for each ID |
| PlatDefRecords.ParseI2cSegments | meta-canopy/meta-hpe/meta-common/recipes-hpe/gxp-chif-service/gxp-chif-service/src/platdef_extract.cpp:447-542 | The walk terminates on any bytes and fills the map as specified |
| PlatDefRecords.ParseEngine | meta-canopy/meta-hpe/meta-common/recipes-hpe/gxp-chif-service/gxp-chif-service/src/platdef_extract.cpp:507-533 | The inner loop is bounded by the record alone: the bound by the blob is never the tighter one |
| SmbiosRuns.BufferIsTheSession | meta-canopy/meta-hpe/meta-common/recipes-hpe/gxp-chif-service/gxp-chif-service/src/smbios_writer.cpp:16-66 | After any run of ROM packets the buffer is the in-order concatenation of the records accepted since the last begin, and at most 1 MiB |
| SmbiosRuns.AppendsLongestPrefix | meta-canopy/meta-hpe/meta-common/recipes-hpe/gxp-chif-service/gxp-chif-service/src/smbios_writer.cpp:43-65 | A packet appends the longest prefix of the records it wraps that fits below the limit, and no part of any other record |
| SmbiosRuns.FittingBlobIsAppendedWhole | meta-canopy/meta-hpe/meta-common/recipes-hpe/gxp-chif-service/gxp-chif-service/src/smbios_writer.cpp:22-66 | A blob of at most 1000 non-empty records that fit appends exactly their concatenation |
| SmbiosRuns.WrapRoundTrip | meta-canopy/meta-hpe/meta-common/recipes-hpe/gxp-chif-service/gxp-chif-service/src/smbios_writer.cpp:31-52 | A wrapped record list is unwrapped to itself, cut to 1000 records, whatever lies behind it |
| SmbiosRuns.TransferIsStored | meta-canopy/meta-hpe/meta-common/recipes-hpe/gxp-chif-service/gxp-chif-service/src/rom_service.cpp:49-114 | Whatever came before: a begin, blobs that fit together, and an end whose file can be stored leave a file that reads back as all records in order |
| SmbiosRuns.FileIsAWholeSession | meta-canopy/meta-hpe/meta-common/recipes-hpe/gxp-chif-service/gxp-chif-service/src/rom_service.cpp:74-96 | After any run the file is the one from before it, or reads back as the whole session up to the last end that could store one, never part of one, with the time of that end and the number of attempts so far as directory version |
| SmbiosRuns.FileReadsBack | meta-canopy/meta-hpe/meta-common/recipes-hpe/gxp-chif-service/gxp-chif-service/src/smbios_writer.cpp:112-160 | A reader recovers directory version, time (mod 2^32), version 3.3, revision 1, table address 0 and exactly the records; both size fields agree with the file, and the entry point (DSP0134, section 5.2.2) sums to zero mod 256 |
| SmbiosRuns.CountsEnds | meta-canopy/meta-hpe/meta-common/recipes-hpe/gxp-chif-service/gxp-chif-service/src/smbios_writer.cpp:95-185 | Over every run the directory version counts the ends that had records and a directory, and the bridge is told of those whose file was stored |
| SmbiosRuns.AnswerFields | meta-canopy/meta-hpe/meta-common/recipes-hpe/gxp-chif-service/gxp-chif-service/src/rom_service.cpp:16-47 | Exactly the six known commands are answered, with size 8 and sequence number, command, service and version of the request |
| SmbiosRuns.LimitDoesNotCloseTheSession | meta-canopy/meta-hpe/meta-common/recipes-hpe/gxp-chif-service/gxp-chif-service/src/smbios_writer.cpp:54-61 | A record beyond the limit ends its own packet only: whatever the fill level and sizes, the record of the next packet is accepted if it fits, although the log announces that further records are discarded |
| SmbiosRuns.AddKeepsBuffer | meta-canopy/meta-hpe/meta-common/recipes-hpe/gxp-chif-service/gxp-chif-service/src/smbios_writer.cpp:62-64 | Whatever a packet holds, what was received before it stays in front |
| SmbiosService.SmbiosWriter.AddRecord | meta-canopy/meta-hpe/meta-common/recipes-hpe/gxp-chif-service/gxp-chif-service/src/smbios_writer.cpp:22-66 | The unwrapping loop appends what is specified, on any bytes |
| SmbiosService.SmbiosWriter.ComputeChecksum | meta-canopy/meta-hpe/meta-common/recipes-hpe/gxp-chif-service/gxp-chif-service/src/smbios_writer.cpp:78-93 | With this byte in the checksum field, whatever stood there, the entry point sums to zero mod 256 |
| SmbiosService.SmbiosWriter.Finalize | meta-canopy/meta-hpe/meta-common/recipes-hpe/gxp-chif-service/gxp-chif-service/src/smbios_writer.cpp:95-185 | File and directory version after every way the end can go; the version advances even when the file cannot be written |
| SmbiosService.RomService.Handle | meta-canopy/meta-hpe/meta-common/recipes-hpe/gxp-chif-service/gxp-chif-service/src/rom_service.cpp:16-47 | Writer, file, bridge and response buffer end up as the protocol says, for every packet and buffer size |
| SmbiosService.RomService.HandleEnd | meta-canopy/meta-hpe/meta-common/recipes-hpe/gxp-chif-service/gxp-chif-service/src/rom_service.cpp:74-96 | The bridge is notified exactly when a file was stored |
| SmbiosService.RomService.BuildHeaderOnlyResponse | meta-canopy/meta-hpe/meta-common/recipes-hpe/gxp-chif-service/gxp-chif-service/src/rom_service.cpp:116-130 | Eight bytes, the command without the response bit, the rest of the buffer untouched; or nothing in a smaller buffer |
| Packet.HeaderRoundTrip | meta-canopy/meta-hpe/meta-common/recipes-hpe/gxp-chif-service/gxp-chif-service/src/packet.hpp:41-56 | Header and payload are read back from a packet |
| Packet.HeaderBytes | meta-canopy/meta-hpe/meta-common/recipes-hpe/gxp-chif-service/gxp-chif-service/src/packet.hpp:41-56 | Each header field at its place, low byte first |
| Packet.CopyInto | meta-canopy/meta-hpe/meta-common/recipes-hpe/gxp-chif-service/gxp-chif-service/src/packet.hpp:60-70 | Copying into the buffer changes that stretch only |
| Packet.InitResponse | meta-canopy/meta-hpe/meta-common/recipes-hpe/gxp-chif-service/gxp-chif-service/src/packet.hpp:60-70 | The response header goes over the first eight bytes only |
| Packet.InitRomResponse | meta-canopy/meta-hpe/meta-common/recipes-hpe/gxp-chif-service/gxp-chif-service/src/packet.hpp:74-84 | The same with the command unchanged |
| Packet.EmitResponse | meta-canopy/meta-hpe/meta-common/recipes-hpe/gxp-chif-service/gxp-chif-service/src/packet.hpp:98-111 | The whole response, bytes behind it untouched, or -1 and nothing touched |
| Packet.WithResponseBit | meta-canopy/meta-hpe/meta-common/recipes-hpe/gxp-chif-service/gxp-chif-service/src/packet.hpp:60-70 | Setting bit 15 keeps the low bits and is there whether or not it was set before |

## Left out

- PldmPackage.RoundTrip: starts from metadata that is already parsed: texts as ASCII bytes, hexadecimal decoded, the release date a timestamp. JSON, date formats, `datetime.now`, command-line arguments, error texts, and options given as anything but integers are not modelled.
- PldmWriter.CreatePackage: the images are the same when their sizes are taken and when they are copied; failures of the file system are not modelled.
- EvSmif.SmifService.Handle: only the four commands on EVs. The EV state and authentication status handlers, network, I2C proxy, security state, field access and platform definition download are fixed layouts.
- EvDaemon.EvStorage.Save: the temporary file and the copy are one outcome; the bytes are written in one piece, and directories are not modelled. That `load` cannot open a file that is there is an outcome too.
- EvBootRuns.SignalsDrain: the settings service is taken to signal every write that arrives, also one that changes nothing; fewer signals only shorten the cascade.
- EvRuns.CapacityOverRuns: the file changes only through the service, so what is loaded is always a saved image or a prefix of one. Load itself is specified on any bytes.
- UefiFv.ExtractFfsFile: offsets are naturals; the wrap-around of `size_t` and of `std::streamoff` for volumes longer than the address space is not modelled.
- PlatDef.SelectPlatDefBundle: offsets are naturals here too, and the platform ID is given; reading it over D-Bus and finding the flash partition are not modelled.
- PlatDefRecords.ParseI2cSegments: works on the decompressed bytes; zlib, and the map from segments to kernel buses, are not modelled.
- SmbiosService.SmbiosWriter.Finalize: creating the directory and writing, closing and renaming the temporary file are two outcomes, and the clock is given.
- Fru.Build: the contents of the inventory objects, and the reconciliation of stored FRU files, are not modelled.
- Log messages, the event loop, D-Bus matching, device I/O, recipes, patches to other projects, device trees, configuration, web interface and shell scripts are not modelled.

# Verification of the SEV library

A Dafny model of the parts of the library that carry state or must agree with each other, with
proofs about them.

- `Registry.dfy`, `Machine.dfy`, `Serializability.dfy`, `Progress.dfy`, `Lifecycle.dfy`,
  `CallLog.dfy`, `Conformance.dfy`: the C launch API, four tables behind four mutexes, run
  sequentially as a class and concurrently as a step relation over any number of calls.
- `GuestContext.dfy`, `Firmware.dfy`, `ImageFormat.dfy`, `KernelHashes.dfy`, `SaveArea.dfy`,
  `LaunchDigest.dfy`, `DigestBinding.dfy`: the SNP launch digest, from the hash chain, the firmware image parser, the
  hash page and the VMSA pages to the whole calculation and what a digest commits to.
- `CertTable.dfy`, `CertChain.dfy`: the kernel certificate table and SNP chain assembly.
- `SevCerts.dfy`, `ChainCodec.dfy`, `ChainFormat.dfy`, `ChainTrust.dfy`: SEV certificates with two
  signature slots, the chain codec, its files byte by byte, and chain verification.
- `Session.dfy`, `Kdf.dfy`: the tenant session, with key wrapping, measurement, secrets and key
  derivation.
- `Integers.dfy`, `Bytes.dfy`: big-integer byte forms and byte strings.

Conventions:

- Cryptography is never axiomatised. SHA-384, SHA-256, HMAC, the AES-CTR keystream, signature
  checking and key loading are function-typed parameters about which nothing is assumed beyond
  the length of their results; binding results exhibit a collision instead of assuming that
  there is none. What OpenSSL returns when asked to sign, and what the kernel returns for an
  ioctl, is a value attached to the call.
- A panic of the original (slice out of range, arithmetic overflow or underflow as in a checked
  build, `assert_eq!`) is either an explicit `Panic` outcome or, where a caller can rule it out,
  a precondition.
- A method that changes state is proved against a function of the old state; the results about
  that function are separate lemmas. `to_ne_bytes` is little-endian.
- Each such function also has a lemma, often named `...Exact` or `...Bytes`, that says what it
  comes to in byte positions and numbers, without the functions it is built from.
- GUIDs of the firmware image and the hash table are kept in the byte order of the image, those
  of the certificate table in printed order.

Where code and documentation disagree, the model follows the code:

- A CA certificate whose signature cannot be read is given the Naples ARK signature whenever the
  data merely ended, not only for the Naples ARK as the comment says (`ChainCodec.CutDecodes`,
  `ChainCodec.OtherPreamble`).
- A kernel hash table that does not fit on its page is cut silently (`KernelHashTable.CutTable`).
- Nothing in the C API prevents a second `sev_init` for a VM that is already launching
  (`Lifecycle.SecondInit`). The accepted commands form one launch exactly for VMs initialised at
  most once (`Lifecycle.LaunchOrder`); a VM is in one place exactly when every `sev_init` that
  succeeds finds it nowhere (`Lifecycle.OneHolderExact`).
- An RSA signature with a leading zero byte does not survive a certificate slot
  (`SevCertificates.StoredPayload`).

## Model

| member | source | states |
|---|---|---|
| `LaunchRegistry.Registry.constructor` | src/lib.rs:394-403 | All four tables start empty. |
| `LaunchRegistry.Registry.Init` | src/lib.rs:418-464 | Table contents and return value of `sev_init` and `sev_es_init` are those of the serial meaning of the call: a launcher is stored exactly when the ioctl succeeds. |
| `LaunchRegistry.Registry.Start` | src/lib.rs:470-506 | The launcher leaves INIT whatever the ioctl says, arrives in STARTED only on success, and replacing another launcher there is reported as failure; nothing else changes. |
| `LaunchRegistry.Registry.Update` | src/lib.rs:516-541 | A borrowing call changes no table and returns the first failure of its two ioctls. |
| `LaunchRegistry.Registry.Vmsa` | src/lib.rs:545-561 | As above, for the VMSA update. |
| `LaunchRegistry.Registry.Measure` | src/lib.rs:571-608 | The launcher moves from STARTED to MEASURED on success and is lost on failure; the measurement is returned on success only. |
| `LaunchRegistry.Registry.Inject` | src/lib.rs:618-657 | A borrowing call on the MEASURED table. |
| `LaunchRegistry.Registry.Finish` | src/lib.rs:664-683 | The launcher moves from MEASURED to FINISHED on success and is lost on failure. |
| `LaunchRegistry.Registry.Report` | src/lib.rs:694-733 | A borrowing call on the FINISHED table that checks the nonce length, stores the firmware error of its two ioctls and always returns -1. |
| `LaunchRegistry.Answers` | src/lib.rs:418-733 | What any call returns on any tables: the code is 0 or -1, and 0 exactly when the launcher was found, every ioctl reached succeeded, the call is not a report and a start replaced nothing; the firmware error is that of the first failing ioctl reached; a measurement comes exactly from a successful measure. |
| `LaunchRegistry.Effects` | src/lib.rs:418-733 | What any call does to the tables: the launcher moves to the next table with its descriptors and handle, is lost, or stays; launchers of other VMs are untouched. |
| `Conformance.PerformAll` | src/lib.rs:418-733 | Calls performed one after another on the tables give the contents and results of their replay. |
| `Conformance.Reenact` | src/lib.rs:394-733 | The calls of any finished concurrent run, performed one by one on the tables in the order in which their results were fixed, give every call the result it had and leave the tables the run left. |
| `Serializability.InvAlways` | src/lib.rs:470-683 | In every reachable state of any number of concurrent calls, the lock table agrees with the calls' program counters and each call's view of the tables it has locked is current. |
| `Serializability.QuietStep` | src/lib.rs:470-683 | A step that does not fix a result leaves the serial view (tables with every launcher in flight put back) unchanged. |
| `Serializability.DecisiveStep` | src/lib.rs:470-683 | The step that fixes a call's result changes the serial view exactly as the call run alone would, and the result is the serial one. |
| `Serializability.Linearizable` | src/lib.rs:470-683 | At every reachable state, the results fixed so far and the serial view are those of one serial execution. |
| `Serializability.Serializable` | src/lib.rs:394-403 | For every interleaving in which all calls have returned, the final four tables and all results equal those of running all calls one after another in some order. |
| `Serializability.RealTime` | src/lib.rs:470-683 | That order respects real time: a call that returned before another was made comes first. |
| `Progress.NestedUpwards` | src/lib.rs:477-506 | A call that waits while holding a lock waits for a later table in the order INIT, STARTED, MEASURED, FINISHED. |
| `Progress.DeadlockFree` | src/lib.rs:576-608 | In every reachable state with an unfinished call, some call can step. |
| `Progress.StepsWithin` | src/lib.rs:470-683 | Every call returns after at most eight steps of its own. |
| `Progress.Quiescence` | src/lib.rs:665-683 | When no call can step, all have returned. |
| `Progress.Achievable` | src/lib.rs:418-683 | Conversely to serializability, every serial execution is the outcome of some run of the concurrent machine. |
| `CallLog.Issues` | src/lib.rs:418-733 | A call sends all of its ioctls in one step, in order, and no other step sends any. |
| `CallLog.AlwaysAccounted` | src/lib.rs:418-733 | In every reachable state the firmware has received everything that a success or firmware error returned to a caller stands for, and nothing that no call accounts for. |
| `Lifecycle.WalkMeansPrefix` | src/launch/sev.rs:50-240 | The type-state automaton of launchers accepts exactly the prefixes of INIT START UPDATE* MEASURE SECRET* FINISH REPORT*. |
| `Lifecycle.TablesAreTyped` | src/lib.rs:394-403 | In every concurrent run each table holds only launchers of its own type-state, stored under their own VM descriptor. |
| `Lifecycle.LaunchOrder` | src/launch/sev.rs:50-240 | The commands a VM's firmware accepted over any run form a prefix of a launch if and only if INIT succeeded at most once for it. |
| `Lifecycle.OneHolderExact` | src/lib.rs:418-683 | At every moment of a run at most one table or call has a VM's launcher, if and only if every INIT that succeeds for the VM finds it in no table and carried by no call. |
| `Lifecycle.OnceIsClean` | src/lib.rs:418-464 | In particular that guard holds in every run where INIT succeeds at most once. |
| `Lifecycle.OneTable` | src/lib.rs:394-683 | Under that guard a VM in a table is in no other table and carried by no call. |
| `Lifecycle.TableOfTrace` | src/launch/sev.rs:50-240 | The table of a VM initialised at most once is the one its accepted commands imply. |
| `Lifecycle.FailureIsFinal` | src/lib.rs:470-683 | After a failed start, measure or finish, in any run that does not initialise the VM again, every call on it that was undecided then or is made later is refused, and the VM stays in no table. |
| `Lifecycle.SecondInit` | src/lib.rs:418-464 | For every VM: initialising it again while it is launching puts it in two tables. |
| `Lifecycle.InitAgain` | src/lib.rs:418-464 | For every VM: after a failed start it can be initialised a second time and is in INIT only. |
| `GuestContext.Gctx.constructor` | src/measurement/gctx.rs:42-49 | A context starts from the all-zero digest. |
| `GuestContext.Gctx.FromSeed` | src/measurement/gctx.rs:53-58 | A context starts from a given digest. |
| `GuestContext.Gctx.Update` | src/measurement/gctx.rs:61-93 | One link: succeeds exactly for 48-byte contents, hashes the 112-byte PAGE_INFO structure, and leaves the digest alone on failure. |
| `GuestContext.Gctx.UpdateNormal` | src/measurement/gctx.rs:96-162 | The loop over normal pages never fails and leaves the digest of the 4096-byte pages in ascending order. |
| `GuestContext.Gctx.UpdateZero` | src/measurement/gctx.rs:96-162 | The same for zero pages of a given length. |
| `GuestContext.Gctx.UpdatePage` | src/measurement/gctx.rs:96-162 | On success the new digest is that of the pages of the update; on failure it is untouched; errors for missing data, missing length and unaligned sizes. |
| `GuestContext.MeasureAppend` | src/measurement/gctx.rs:61-93 | Measuring a concatenation of page lists is measuring the parts in turn. |
| `GuestContext.InfoBytes` | src/measurement/gctx.rs:61-93 | The hashed structure by byte positions: digest at 0, contents at 48, length 0x70 at 96, type at 98, zero flags and permissions, address at 104. |
| `GuestContext.ChainLink` | src/measurement/gctx.rs:61-162 | One more page: the new digest is the hash of such a structure holding the digest before it, the type code 1 to 6, the address, and the hash of the contents or 48 zeros. |
| `GuestContext.PagesExact` | src/measurement/gctx.rs:96-162 | Which pages one update measures for every page type, and its errors. |
| `GuestContext.SplitNormal` | src/measurement/gctx.rs:96-162 | Giving aligned data at once or in two pieces at consecutive addresses gives the same pages and the same digest. |
| `GuestContext.SplitZero` | src/measurement/gctx.rs:96-162 | The same for zero pages by length. |
| `GuestContext.InfoInjective` | src/measurement/gctx.rs:61-93 | A PAGE_INFO structure determines the digest before it, the page type, the address and the contents digest. |
| `GuestContext.Binding` | src/measurement/gctx.rs:42-49 | Two record histories from the all-zero digest with the same digest are equal, or walking back yields two distinct 112-byte inputs with one hash or a 112-byte input hashing to all zeros. |
| `GuestContext.ContentBinding` | src/measurement/gctx.rs:96-162 | Pages with equal records are equal, or two page contents collide. |
| `GuestContext.PageBinding` | src/measurement/gctx.rs:61-162 | The two combined: equal digests mean equal pages, or the hash is broken; where contents are single pages, on two 112-byte structures, two 4096-byte pages, or one 112-byte structure hashing to all zeros. |
| `Firmware.Ovmf.ParseFooterTable` | src/measurement/ovmf.rs:262-314 | The table left behind is the specified one, or the specified error; all accesses are inside the image. |
| `Firmware.Ovmf.ScanTable` | src/measurement/ovmf.rs:286-311 | The backwards loop terminates, stays inside the table and builds the map of the entries it finds. |
| `Firmware.Ovmf.ParseSevMetadata` | src/measurement/ovmf.rs:317-343 | Appends exactly the sections the metadata header announces, or fails as specified. |
| `Firmware.Ovmf.ReadSections` | src/measurement/ovmf.rs:326-331 | The descriptor loop, with the error of the first bad descriptor. |
| `Firmware.Ovmf.Parse` | src/measurement/ovmf.rs:169-189 | Parsing a whole image. |
| `Firmware.LowestWins` | src/measurement/ovmf.rs:304-309 | Of several entries with one GUID the table holds the one at the lowest address. |
| `Firmware.ScanInverts` | src/measurement/ovmf.rs:286-311 | Scanning a laid-out list of entries gives back the list, whatever unreadable bytes precede it. |
| `Firmware.ScanTiles` | src/measurement/ovmf.rs:286-311 | Conversely, a successful scan has found entries that tile the bytes exactly, up to a stretch at the low end at which the scan must stop. |
| `Firmware.FooterInverts` | src/measurement/ovmf.rs:262-314 | Parsing an image with a laid-out footer table gives the table. |
| `Firmware.FooterSound` | src/measurement/ovmf.rs:262-314 | Parsing succeeds only on images that have such a layout. |
| `Firmware.MetadataInverts` | src/measurement/ovmf.rs:317-343 | Parsing encoded metadata gives back its sections, wherever in the image it is. |
| `Firmware.ImageInverts` | src/measurement/ovmf.rs:169-189 | An image laid out as firmware builds it parses to exactly what was laid out. |
| `ImageFormat.FooterExact` | src/measurement/ovmf.rs:262-285 | Where the table is found from the end of the file, with every error, in byte positions. |
| `ImageFormat.EntryBytes` | src/measurement/ovmf.rs:137-149 | A table entry by byte positions: data, total size, GUID. |
| `ImageFormat.ScanFails` | src/measurement/ovmf.rs:287-299 | A scan that fails has met, behind entries it has read, a header that claims less than 18 bytes. |
| `ImageFormat.ScanStops` | src/measurement/ovmf.rs:287-299 | Conversely, such a header makes the scan fail with the size it claims. |
| `ImageFormat.MetadataExact` | src/measurement/ovmf.rs:316-343 | Metadata parses to given sections if and only if the table has the metadata entry and the image has, at the offset from the end it gives, the signature "ASEV", a size covering the descriptors, version 1, their number, and for each section its address, size and type byte 1, 2, 3 or 0x10. |
| `ImageFormat.EachHeld` | src/measurement/ovmf.rs:326-331 | Each section is held by the descriptor 12 bytes behind the one before it. |
| `ImageFormat.MetadataErrors` | src/measurement/ovmf.rs:112-124 | When the missing-entry, signature and version errors are returned. |
| `ImageFormat.SectionErrors` | src/measurement/ovmf.rs:326-331 | Descriptors fail at the first that lies past the end or has an unknown type. |
| `ImageFormat.LookupsExact` | src/measurement/ovmf.rs:224-259 | Which table entry, by its printed GUID, gives the hash table address and which the reset address, read from its first four bytes; and the two errors. |
| `ImageFormat.FooterGuid` | src/measurement/ovmf.rs:152 | The footer GUID as printed, in the byte order of the image. |
| `ImageFormat.HashTableGuid` | src/measurement/ovmf.rs:153 | The hash table GUID likewise. |
| `ImageFormat.ResetBlockGuid` | src/measurement/ovmf.rs:154 | The reset block GUID likewise. |
| `ImageFormat.MetadataGuid` | src/measurement/ovmf.rs:155 | The metadata GUID likewise. |
| `KernelHashTable.ConstructPage` | src/measurement/sev_hashes.rs:199-213 | The page is zero except for the table at its offset, cut at the end of the page; fails exactly for an offset outside the page, and the final size check never fails. |
| `KernelHashTable.Hashed` | src/measurement/sev_hashes.rs:143-181 | What is hashed: the kernel, the initrd or nothing, and the command line, present or not, with a zero byte behind it. |
| `KernelHashTable.HeaderGuid` | src/measurement/sev_hashes.rs:127 | The header GUID as printed, in the byte order of the page. |
| `KernelHashTable.KernelGuid` | src/measurement/sev_hashes.rs:128 | The kernel GUID likewise. |
| `KernelHashTable.InitrdGuid` | src/measurement/sev_hashes.rs:129 | The initrd GUID likewise. |
| `KernelHashTable.CmdlineGuid` | src/measurement/sev_hashes.rs:130 | The command-line GUID likewise. |
| `KernelHashTable.TableBytes` | src/measurement/sev_hashes.rs:185-196 | The table by byte positions: header with length 168, then command line, initrd and kernel, each with length 50 and its hash, then eight zeros. |
| `KernelHashTable.PageBytes` | src/measurement/sev_hashes.rs:199-213 | Every byte of the page: the table behind the offset and zero elsewhere. |
| `KernelHashTable.TableInjective` | src/measurement/sev_hashes.rs:185-196 | The first 168 bytes of the table determine the three hashes. |
| `KernelHashTable.PageBindsHashes` | src/measurement/sev_hashes.rs:199-213 | The page determines the hashes if and only if the 168-byte table fits behind the offset. |
| `KernelHashTable.CutTable` | src/measurement/sev_hashes.rs:205-212 | Beyond that offset two different kernels share a page: a table that does not fit is cut without an error. |
| `SaveAreas.BuildSaveArea` | src/measurement/vmsa.rs:322-393 | The sequence of assignments leaves the reset state for every VMM type; what the KRUN branch puts into the code segment and instruction pointer is overwritten. |
| `SaveAreas.LayoutIsPage` | src/measurement/vmsa.rs:170-278 | The serialised save area is exactly 4096 bytes. |
| `SaveAreas.ResetSegments` | src/measurement/vmsa.rs:368-377 | The ten segments of the reset page read back by offset: selector, attributes for each VMM type, limit and base. |
| `SaveAreas.ResetRegisters` | src/measurement/vmsa.rs:378-384 | The control registers, flags, instruction and stack pointer read back by offset. |
| `SaveAreas.ResetGeneral` | src/measurement/vmsa.rs:334-391 | The remaining registers read back by offset, with the stack and boot-parameter registers of a KRUN boot. |
| `SaveAreas.ControlOnPage` | src/measurement/vmsa.rs:170-215 | Where EFER to RSP lie on the page of any save area; everything between them is zero. |
| `SaveAreas.GeneralOnPage` | src/measurement/vmsa.rs:215-278 | Where the later registers lie on the page of any save area; everything between and behind them is zero. |
| `SaveAreas.StartAddress` | src/measurement/vmsa.rs:368-383 | Code segment base plus instruction pointer is the start address, exactly for 32-bit addresses. |
| `SaveAreas.StartOnPage` | src/measurement/vmsa.rs:322-393 | The same read from the page bytes, at offsets 0x18 and 0x178. |
| `SaveAreas.PageDetermines` | src/measurement/vmsa.rs:322-393 | The page of the boot processor determines the guest features (at 0x3b0), whether the hypervisor is QEMU, and on QEMU the CPU signature. |
| `SaveAreas.NewVmsa` | src/measurement/vmsa.rs:293-320 | A boot area for the fixed reset vector, and an application-processor area exactly when the start address is not zero. |
| `SaveAreas.BuildPages` | src/measurement/vmsa.rs:395-414 | The loop builds the boot page and then one page for each further CPU. |
| `SaveAreas.PagesShape` | src/measurement/vmsa.rs:395-414 | The number of pages, their contents and their size, for any number of CPUs. |
| `SaveAreas.CpuPageReads` | src/measurement/vmsa.rs:293-414 | Every CPU page holds the features and, on QEMU, the signature, and starts the CPU at the reset vector for the first and at the given address for the others. |
| `LaunchDigest.UpdateKernelHashes` | src/measurement/snp.rs:29-53 | Digest or error of a kernel-hashes section: the hash page with a kernel, zero pages without. |
| `LaunchDigest.UpdateSection` | src/measurement/snp.rs:56-84 | Digest or error of one metadata section. |
| `LaunchDigest.UpdateMetadataPages` | src/measurement/snp.rs:87-111 | Digest or error of all metadata sections, with the late CPUID pass for EC2 and the check for a missing kernel-hashes section. |
| `LaunchDigest.ScheduleRefined` | src/measurement/snp.rs:87-111 | The pages measured are those of the sections in metadata order, with all CPUID sections moved stably to the end for EC2; they exist exactly when every section is well formed and a kernel has a section for its hashes. |
| `LaunchDigest.ScheduleIsPermutation` | src/measurement/snp.rs:87-111 | For every VMM type the measured sections are the metadata sections, each exactly as often. |
| `LaunchDigest.SamePagesForAll` | src/measurement/snp.rs:87-111 | All VMM types accept the same images and measure the same pages with the same multiplicities. |
| `LaunchDigest.KeepExact` | src/measurement/snp.rs:93-103 | Taking the sections of a kind is done piece by piece, so it keeps all of them in their order. |
| `LaunchDigest.ScheduleExact` | src/measurement/snp.rs:93-103 | QEMU and KRUN measure in metadata order; EC2 measures the CPUID sections last. |
| `LaunchDigest.SecretsMeasured` | src/measurement/snp.rs:70-72 | A secrets section is one page whose hashed structure has type 5, the section's address and 48 zeros. |
| `LaunchDigest.CpuidMeasured` | src/measurement/snp.rs:73-77 | A CPUID section likewise with type 6. |
| `LaunchDigest.MemoryMeasured` | src/measurement/snp.rs:64-69 | A memory section is structures of type 3 at ascending addresses over a whole number of pages, or an error. |
| `LaunchDigest.NoKernelMeasured` | src/measurement/snp.rs:49 | Without a kernel a hashes section is measured like memory. |
| `LaunchDigest.KernelMeasured` | src/measurement/snp.rs:37-48 | With a kernel it is one structure of type 1 over the page that holds the hash table at the offset the image reserves; and when it fails. |
| `LaunchDigest.FirmwareTiles` | src/measurement/ovmf.rs:196-198 | The firmware pages tile exactly the range from 4 GiB minus the image size to 4 GiB and hold the image byte for byte. |
| `LaunchDigest.FirmwareMeasured` | src/measurement/snp.rs:118 | The firmware is measured as type 1 page by page below 4 GiB, exactly when it is aligned and fits. |
| `LaunchDigest.CpusMeasured` | src/measurement/snp.rs:191-193 | CPU pages are measured as type 2 at the fixed VMSA address. |
| `LaunchDigest.CalcOvmfHash` | src/measurement/snp.rs:114-123 | The firmware hash, or the error. |
| `LaunchDigest.StartContext` | src/measurement/snp.rs:153-165 | The context before metadata: from the hexadecimal seed or measured from the firmware. |
| `LaunchDigest.UpdateCpus` | src/measurement/snp.rs:191-193 | The loop over VMSA pages never fails and measures them in order. |
| `LaunchDigest.CalcLaunchDigest` | src/measurement/snp.rs:148-198 | The whole calculation refines a fold over one declaratively defined page list, errors included. |
| `LaunchDigest.HexRoundTrip` | src/measurement/snp.rs:24-26 | Decoding the hexadecimal form of a digest gives the digest. |
| `LaunchDigest.FromHexExact` | src/measurement/snp.rs:155 | A string decodes to the bytes it spells, two digits each in either case, and every other string is refused. |
| `LaunchDigest.SeedExact` | src/measurement/snp.rs:153-157 | A seed is accepted exactly when it is 96 digits, and is the digest they spell. |
| `LaunchDigest.SeedShortcut` | src/measurement/snp.rs:114-123 | Passing the precomputed firmware hash gives the same result as computing it, for every image and argument set. |
| `LaunchDigest.MoreCpuPages` | src/measurement/vmsa.rs:395-414 | One more CPU adds one application-processor page, or none without a start address. |
| `LaunchDigest.OneMoreCpu` | src/measurement/snp.rs:183-197 | The digest for one more CPU is the digest for the smaller guest extended by one page, or unchanged, or the same error. |
| `LaunchBinding.DigestOfPages` | src/measurement/snp.rs:148-198 | Without a seed the digest is that of all pages from the all-zero digest. |
| `LaunchBinding.AllPagesAre` | src/measurement/snp.rs:148-198 | The whole page list: firmware, scheduled sections, CPUs, with QEMU as the default; and exactly when it exists. |
| `LaunchBinding.FirmwareDetermined` | src/measurement/ovmf.rs:196-198 | The page list determines where the firmware ends and what it is. |
| `LaunchBinding.HashesDetermined` | src/measurement/snp.rs:29-53 | The metadata pages determine whether there is a kernel and, where the table fits, its hashes. |
| `LaunchBinding.CpusDetermined` | src/measurement/snp.rs:183-197 | Equal CPU pages mean the same guest features, the same answer to whether the hypervisor is QEMU and, on QEMU, the same CPU signature; and the same number of CPUs where there is a start address. |
| `LaunchBinding.DigestBinding` | src/measurement/snp.rs:148-198 | Two launches with the same digest used the same firmware, CPU pages, guest features, number of CPUs and kernel hashes, or their pages exhibit a break of SHA-384 on inputs of 112 or 4096 bytes. |
| `CertTable.GuidRoundTrip` | src/firmware/host/types/snp.rs:64-107 | GUID to type and back is the identity; type to GUID and back is, except for an OTHER that hides a named type. |
| `CertTable.PrintedTypes` | src/firmware/host/types/snp.rs:64-107 | The type of each printed GUID. |
| `CertTable.UapiToVecBytes` | src/firmware/linux/host/types/snp.rs:112-154 | The buffer is the rows, a nil row and the certificates, with no overflow whenever everything fits 32 bits. |
| `CertTable.ReadCert` | src/firmware/linux/host/types/snp.rs:195-203 | The inner pointer loop reads exactly the certificate, or runs out of the buffer; an empty certificate is never read. |
| `CertTable.ParseTable` | src/firmware/linux/host/types/snp.rs:171-212 | The pointer-walking loop, with reads outside the buffer as an explicit outcome. |
| `CertTable.WrittenBytes` | src/firmware/linux/host/types/snp.rs:112-154 | The written buffer by byte positions: each row has GUID, offset and length, the certificates follow each other behind the nil row, and nothing follows them. |
| `CertTable.ParseExact` | src/firmware/linux/host/types/snp.rs:171-212 | A table is read if and only if its rows read as its entries in order and the next row is nil. |
| `CertTable.EachRead` | src/firmware/linux/host/types/snp.rs:184-206 | In a table that is read, every entry is what its row points to. |
| `CertTable.RoundTrip` | src/firmware/linux/host/types/snp.rs:112-212 | Parsing an encoded table gives its exact normal form (cut at the first nil GUID, known GUIDs under their named type), hence the table itself if and only if it is canonical. |
| `CertTable.ParsedIsCanonical` | src/firmware/linux/host/types/snp.rs:171-212 | Whatever the parser returns is canonical. |
| `CertTable.Rewritten` | src/firmware/host/types/snp.rs:177-190 | So a parsed table survives being written and parsed again. |
| `CertTable.TotalOrder` | src/firmware/host/types/snp.rs:109-139 | The comparison of types is a total order that agrees with equality. |
| `CertTable.OrderExact` | src/firmware/host/types/snp.rs:109-139 | The order is ARK, VCEK, VLEK, ASK, CRL, other types by GUID, and the empty type last. |
| `SnpChain.ParseFromCertTable` | src/certs/snp/chain.rs:52-126 | The loop over four optional slots, error by error. |
| `SnpChain.ChainExact` | src/certs/snp/chain.rs:52-126 | A chain is built if and only if all entries decode, there is exactly one ARK and one ASK, at most one VCEK and one VLEK and at least one of those; and it is made of those certificates, with the VLEK preferred. |
| `SnpChain.ErrorExact` | src/certs/snp/chain.rs:52-126 | The error of every table that makes no chain: of the first entry that does not decode or repeats one of the four types, and without such an entry, the first of ARK, ASK and VEK that is missing. |
| `SnpChain.OrderIndependent` | src/certs/snp/chain.rs:52-126 | Every permutation of the table, the sorted one included, gives the same chain or none. |
| `SnpChain.ChainThroughTable` | src/firmware/host/types/snp.rs:177-190 | The chain of a table that has gone through the kernel format is that of its normal form, and the original one wherever no entry has a nil GUID or hides a slot under OTHER. |
| `SnpChain.HiddenArk` | src/firmware/host/types/snp.rs:92-107 | An ARK hidden under OTHER is found only after the trip. |
| `SevCertificates.StoredPayload` | src/certs/sev/sev/cert/v1/sig/mod.rs:84-147 | A signature stored in a slot reads back as itself if and only if it is an ECDSA one or has no leading zero byte. |
| `SevCertificates.LostZero` | src/certs/sev/sev/cert/v1/sig/rsa.rs:31-66 | An RSA signature with a leading zero byte is stored like the shorter one. |
| `SevCertificates.PayloadReads` | src/certs/sev/sev/cert/v1/sig/mod.rs:121-147 | What is read from a slot: two little-endian numbers of 72 bytes, or the data as one number in big-endian bytes without leading zeros. |
| `SevCertificates.DataStored` | src/certs/sev/sev/cert/v1/sig/mod.rs:81-119 | What is stored in a slot, byte by byte, with zeros behind it. |
| `SevCertificates.VerifySlots` | src/certs/sev/sev/cert/mod.rs:188-199 | The loop over the slots succeeds exactly when one of the two signatures verifies. |
| `SevCertificates.Verify` | src/certs/sev/sev/cert/mod.rs:184-200 | Verification of one platform certificate by another, error by error. |
| `SevCertificates.KeyExact` | src/certs/sev/sev/cert/v1/body/key/mod.rs:59-86 | Which certificates give a public key, with kind and digest by algorithm number, and the two errors. |
| `SevCertificates.SignedBytes` | src/certs/sev/sev/cert/mod.rs:99-109 | The signed bytes by position: version, firmware, usage, algorithm, public key. |
| `SevCertificates.SlotSigns` | src/certs/sev/crypto.rs:101-131 | A slot verifies if and only if its usage and algorithm are the key's, by number, and the data in it checks by that key and digest as a signature of the target's signed bytes. |
| `SevCertificates.VerifiesExactly` | src/certs/sev/sev/cert/mod.rs:184-200 | Verification accepts if and only if the key can be read and one of the two slots of a version 1 target holds such a signature. |
| `SevCertificates.Certificate.constructor` | src/certs/sev/sev/cert/v1/mod.rs:18-29 | A new certificate has two default signature slots. |
| `SevCertificates.Certificate.Sign` | src/certs/sev/sev/cert/v1/mod.rs:47-78 | Signing in place fills the first empty slot and changes nothing else, or fails and changes nothing. |
| `SevCertificates.SignVerifies` | src/certs/sev/crypto.rs:101-131 | After a successful signature by a known usage, the signer and the target verify. |
| `SevCertificates.SignKeeps` | src/certs/sev/sev/cert/v1/mod.rs:50-57 | A signature keeps the body and every signer that verified before. |
| `SevCertificates.SignSucceeds` | src/certs/sev/sev/cert/v1/mod.rs:50-77 | Signing succeeds exactly when a slot is empty, OpenSSL answers and the key has no identity, and fills a slot exactly when the key's usage is a known one. |
| `SevCertificates.SignedExact` | src/certs/sev/sev/cert/v1/mod.rs:47-78 | What a signature writes and where, by number and byte, what it leaves alone, and the conditions of the two errors. |
| `SevCertificates.EverySigner` | src/certs/sev/sev/cert/v1/mod.rs:50-77 | After any sequence of signing requests, every accepted signer verifies and the body is the original one. |
| `SevCertificates.SlotsLast` | src/certs/sev/sev/cert/v1/mod.rs:50-57 | Requests by generated keys are accepted exactly while slots last. |
| `SevCertificates.GeneratedMatches` | src/certs/sev/sev/cert/v1/body/key/mod.rs:90-117 | Generation yields a certificate and key that belong together, exactly for the four platform usages. |
| `SevCertificates.GeneratedExact` | src/certs/sev/sev/cert/v1/body/key/mod.rs:90-117 | The fields of a generated certificate and key, by number. |
| `SevCertificates.EitherOrder` | src/certs/sev/sev/chain.rs:65-75 | A chain signed by generated keys verifies whichever of OCA and CEK signs the PEK first. |
| `SevCertificates.PekIsFull` | src/certs/sev/sev/chain.rs:65-75 | In a chain that verifies, the two slots of the PEK are taken by the OCA and the CEK and no further signature is accepted. |
| `ChainCodec.Reader.ReadExact` | src/util/mod.rs:27-36 | Reading exactly n bytes from the front, or the fault of the stream. |
| `ChainCodec.DecodeSevCert` | src/certs/sev/sev/cert/mod.rs:75-86 | Stepwise decoding of a platform certificate refines the specification and leaves the rest of the stream. |
| `ChainCodec.CertRoundTrip` | src/certs/sev/sev/cert/mod.rs:75-98 | A platform certificate followed by anything decodes to itself and leaves what followed. |
| `ChainCodec.CertInverse` | src/certs/sev/sev/cert/v1/mod.rs:32-45 | Decoding succeeds only on encodings. |
| `ChainCodec.DecodeCaCert` | src/certs/sev/ca/cert/v1.rs:191-208 | Stepwise decoding of a CA certificate of either size. |
| `ChainCodec.DecodeCaContents` | src/certs/sev/ca/cert/v1.rs:122-150 | The numbers of a CA certificate, with the replacement of an unreadable signature. |
| `ChainCodec.EncodeCaCert` | src/certs/sev/ca/cert/v1.rs:210-219 | Encoding appends the certificate, or fails and writes nothing. |
| `ChainCodec.CaRoundTrip` | src/certs/sev/ca/cert/v1.rs:191-219 | A CA certificate of either size followed by anything decodes to itself and leaves what followed. |
| `ChainCodec.CaInverse` | src/certs/sev/ca/cert/v1.rs:122-150 | Whatever decodes is well formed and was either encoded in full or cut short in its signature. |
| `ChainCodec.CutDecodes` | src/certs/sev/ca/cert/v1.rs:139-146 | What becomes of a certificate cut in its signature: accepted exactly when it is a 2048-bit one and the data ended regularly or it is the Naples ARK; a 4096-bit one panics at a regular end. |
| `ChainCodec.NaplesArk` | src/certs/sev/ca/cert/v1.rs:133-146 | A Naples ARK cut anywhere in its signature decodes as if the known signature were present. |
| `ChainCodec.OtherPreamble` | src/certs/sev/ca/cert/v1.rs:133-146 | The replacement is not limited to the Naples ARK, against the comment: an ASK without signature is given the Naples one. |
| `ChainCodec.DecodeSevChain` | src/certs/sev/sev/chain.rs:26-52 | Stepwise decoding of the platform chain, with the usage check in every position. |
| `ChainCodec.DecodeFullChain` | src/certs/sev/chain.rs:21-29 | Stepwise decoding of the full chain. |
| `ChainCodec.EncodeFullChain` | src/certs/sev/chain.rs:31-38 | Stepwise encoding of the full chain. |
| `ChainCodec.ChainRoundTrip` | src/certs/sev/chain.rs:21-38 | A full chain followed by anything decodes to itself and leaves exactly what followed, if and only if every certificate has the usage of its position; otherwise it is rejected. |
| `ChainCodec.DecodedChain` | src/certs/sev/ca/chain.rs:23-36 | Whatever decodes as a chain is well formed and has the right usage in every position. |
| `ChainCodec.NaplesChain` | src/certs/sev/chain.rs:21-29 | A chain file that stops inside the signature of a Naples ARK is read as the chain with the known signature. |
| `ChainFormat.CertBytes` | src/certs/sev/sev/cert/mod.rs:88-97 | An encoded platform certificate by byte positions, 2084 in all; only version 1 is encoded. |
| `ChainFormat.CertDecodes` | src/certs/sev/sev/cert/mod.rs:75-86 | Which bytes decode as a platform certificate, to which fields, and which error the others give. |
| `ChainFormat.CaBytes` | src/certs/sev/ca/cert/v1.rs:210-219 | An encoded CA certificate by byte positions, and when there is none. |
| `ChainFormat.CaDecodes` | src/certs/sev/ca/cert/v1.rs:122-208 | The outcome of decoding any bytes as a CA certificate, computed from the bytes: the error, the fields, or the fields with the known signature. |
| `ChainFormat.ChainBytes` | src/certs/sev/chain.rs:30-37 | Where the six certificates of an encoded chain lie. |
| `ChainFormat.SevDecodes` | src/certs/sev/sev/chain.rs:26-52 | A platform chain decodes exactly when no certificate is in error at its offset with its usage number; otherwise the first error is returned. |
| `ChainFormat.AuthorityDecodes` | src/certs/sev/ca/chain.rs:20-36 | The ASK and then the ARK, each with its usage number, and the first error. |
| `ChainFormat.ChainDecodes` | src/certs/sev/chain.rs:20-28 | The platform chain and then the authority behind it. |
| `ChainTrust.VerifyCa` | src/certs/sev/ca/cert/mod.rs:189-198 | Verification between CA certificates, with key identities, error by error. |
| `ChainTrust.VerifyPlatform` | src/certs/sev/sev/chain.rs:65-75 | The four checks of the platform chain, with the error of the first that fails. |
| `ChainTrust.VerifyFull` | src/certs/sev/chain.rs:40-48 | All checks of a full chain, with the error of the first that fails. |
| `ChainTrust.CaSignedBytes` | src/certs/sev/ca/cert/v1.rs:221-231 | The signed bytes of a CA certificate by position: everything in front of the signature. |
| `ChainTrust.CaKeyExact` | src/certs/sev/ca/cert/v1.rs:255-280 | Which CA certificates give a key, from the little-endian modulus and exponent, and the two errors. |
| `ChainTrust.CaVerifiesExactly` | src/certs/sev/ca/cert/mod.rs:189-198 | A CA certificate verifies another if and only if versions, sizes, usage and identities agree and the target's signature, turned around, checks over the target's bytes. |
| `ChainTrust.CaErrors` | src/certs/sev/crypto.rs:101-131 | When OpenSSL refuses the key and when only the signature is wrong. |
| `ChainTrust.FullExactly` | src/certs/sev/chain.rs:40-48 | A full chain verifies if and only if each of its seven links (ARK and ASK by ARK, CEK by ASK, OCA by itself, PEK by OCA and by CEK, PDH by PEK) carries a signature that checks. |
| `ChainTrust.CaLink` | src/certs/sev/crypto.rs:101-117 | A verified CA link means an ARK signer that the target names, and equal key sizes. |
| `ChainTrust.Linked` | src/certs/sev/chain.rs:40-48 | A decoded and verified chain is linked throughout, from the ARK to the two slots of the PEK. |
| `TenantSession.Crypter.Update` | src/session/mod.rs:71-76 | One update of the cipher continues the keystream and fills the buffer at its offset. |
| `TenantSession.WrapKeys` | src/session/mod.rs:71-76 | Encrypting the two keys one after the other is encrypting their concatenation. |
| `TenantSession.OpenSession` | src/session/mod.rs:59-88 | What the session sends to open the channel. |
| `TenantSession.XorTwice` | src/session/mod.rs:64-69 | Exclusive or is undone by itself, at any width. |
| `TenantSession.XorBit` | src/session/mod.rs:64-69 | A bit of an exclusive or is set exactly when the two bits differ. |
| `TenantSession.OpeningExact` | src/session/mod.rs:59-88 | The opening in full: the three keys from their printed labels, each wrapped byte, and what the two MACs are over. |
| `TenantSession.KeysArrive` | src/session/mod.rs:59-88 | For any HMAC and keystream, a receiver with the shared secret accepts the opening and recovers both transport keys. |
| `TenantSession.Framing` | src/session/mod.rs:142-261 | The policy, measurement and secret messages are pairwise disjoint and each encoding is injective, for digests and secrets of any length. |
| `TenantSession.MeasureInput` | src/session/mod.rs:151-155 | The authenticated measurement by byte positions (section 6.5 of AMD publication 55766), and nothing else is. |
| `TenantSession.AgreesExactly` | src/session/mod.rs:142-167 | A measurement agrees if and only if it is the HMAC of such bytes. |
| `TenantSession.SecretInput` | src/session/mod.rs:243-249 | The bytes authenticated with a secret, by positions. |
| `TenantSession.SecretInputOnly` | src/session/mod.rs:243-249 | Nothing else is authenticated with a secret. |
| `TenantSession.VerifyDigest` | src/session/mod.rs:142-167 | A measurement is accepted exactly when it is the HMAC, by the TIK, of bytes that hold 4, build, policy, digest and nonce in these positions. |
| `TenantSession.Measuring.UpdateData` | src/session/mod.rs:194-196 | The hasher accumulates its inputs. |
| `TenantSession.Measuring.Verify` | src/session/mod.rs:199-214 | A measuring session accepts exactly what the initialized session accepts for the digest of all inputs joined. |
| `TenantSession.CutsIrrelevant` | src/session/mod.rs:189-196 | How the data is cut into updates does not matter. |
| `TenantSession.PackSecret` | src/session/mod.rs:231-261 | The secret packet, fed to the signer step by step. |
| `TenantSession.SecretExact` | src/session/mod.rs:231-261 | The packet in full: every ciphertext byte, and a MAC over bytes in the stated positions. |
| `TenantSession.SecretArrives` | src/session/mod.rs:231-261 | A receiver that took its keys from the opening reads back the secret. |
| `TenantSession.SecretBound` | src/session/mod.rs:231-261 | A packet accepted for a guest with another measurement is an HMAC collision. |
| `TenantSession.KeysSeparated` | src/session/mod.rs:60-62 | The encryption and integrity keys are derived from different messages. |
| `KeyDerivation.Derive` | src/session/key.rs:67-93 | Exactly size bytes, byte j being byte j mod 32 of block j/32+1, whenever the size in bits fits 32 bits, and an error otherwise; the counter never wraps and the output slice is never exhausted early. |
| `KeyDerivation.BlockInput` | src/session/key.rs:83-87 | The input of one block by byte positions. |
| `KeyDerivation.DerivedExact` | src/session/key.rs:67-93 | Byte j of a derived key is byte j mod 32 of the HMAC of the block input that counts 1 + j/32 and authenticates eight times the size. |
| `KeyDerivation.OneBlock` | src/session/key.rs:67-93 | A key of 16 bytes is the front half of the block that counts 1 and authenticates 128. |
| `KeyDerivation.MessageInjective` | src/session/key.rs:83-87 | For labels without a zero byte the message of a block determines counter, label, context and length. |
| `Integers.AsLeBytes` | src/certs/sev/util.rs:22-44 | The filled buffer is the little-endian form. |
| `Integers.PaddedReversed` | src/measurement/idblock_types.rs:124-140 | The padded and reversed form is the little-endian form. |
| `Integers.BigNumRoundTrip` | src/certs/sev/util.rs:13-32 | A number survives its field and a field survives its number, in both encodings. |
| `Integers.PathsAgree` | src/certs/snp/ecdsa/mod.rs:112-145 | The pure-Rust path reads a field modulo 256^48, so it agrees with the OpenSSL path if and only if the value fits 48 bytes. |
| `Integers.SignatureFields` | src/certs/snp/ecdsa/mod.rs:90-145 | A signature written by OpenSSL with 48-byte scalars is read as the same pair by both paths. |

## Left out

- The ioctls, their command structures and raw pointers: each is an outcome attached to its call.
- The out-buffer of `sev_attestation_report`: the model keeps its table lookup, its ioctls and the code -1 that always follows.
- Mutex poisoning after a panic inside a locked section.
- Real SHA, HMAC, AES, RSA, ECDSA, DER, PEM and X.509: unseen libraries, taken as parameters. ECDSA signatures are pairs of numbers and their DER form is left out.
- Files, environment and the cached chain: bytes are inputs. The kernel command line is taken as already trimmed.
- CPU type tables and `cpu_sig`: the CPU signature is an argument.
- Legacy SEV and SEV-ES digests (`src/measurement/sev.rs`), the ID block and its authentication block beyond the number encodings, attestation reports, the SNP launcher: straight-line code over the parts modelled here.
- Display, Debug, hexadecimal dumps, serde and error-code tables.
- The fields of the save area that are never assigned are gaps of zeros; only the assigned fields have names.
- Memory addresses in the certificate table parser: a row points into one buffer, and a read outside it is an outcome rather than undefined behaviour.
- What a reader holds after a failed decode, and what a writer holds after a failed chain encoding: only the error is stated.
- The 256 bytes of the Naples ARK signature: any 256 bytes, given as a parameter.
- An error inside OpenSSL while a signature is checked, as opposed to a signature that does not check: checking is a predicate.
- ChainCodec.CutDecodes: a reader whose exact read fails is taken to have consumed all its data, as the standard readers over slices and files do.

# Verified core of the DE1 firmware and its test bench

Dafny models of four pieces of this repository, with proofs about them:

* the FatFs R0.09 engine (`sw_wxp/de1_ledos/ledos/fatfs/ff.c`) in the configuration of its `ffconf.h`:
  one-sector window (`_FS_TINY` 1), short names (`_USE_LFN` 0), relative paths (`_FS_RPATH` 2), 512-byte sectors,
  code page 932, one volume;
* the recursive FFT and inverse FFT (`verif/tb/dpi/fft.c`), over exact complex numbers;
* the interrupt-driven JTAG UART driver (`sw_wxp/de1_limbus_bsp/drivers/src/altera_avalon_jtag_uart_*.c`);
* the alarm clock (`sw_wxp/de1_limbus_bsp/HAL/src/alt_tick.c`, `alt_alarm_start.c`).

`dafny verify dfyconfig.toml` checks everything.

## How the file system proof is layered

| modules | layer |
|---|---|
| Bytes, Arith | bytes, little-endian words, facts about quotients and products |
| Geometry | the boot record, the layout of a volume, clusters and sectors |
| Window | the device with the one-sector write-back window; `Logical()` is the disk as it will be after write-back |
| FatAccess | packed FAT entries as an array of links on the logical disk |
| Chains, ChainRuns | families of disjoint, acyclic, ended chains and what each operation does to them |
| Allocator | remove_chain, create_chain, f_getfree over the array of links |
| FileData, Transfer, FileIo | files as byte sequences: f_read, f_write, f_lseek, f_truncate |
| DirMap, DirData, Directory | directories as finite maps from 11-byte names to entries: dir_sdi, dir_next, dir_find, dir_register, dir_remove |
| Names | create_name, get_fileinfo and their round trip |
| LinkMap | the cluster link map of the fast seek feature (compiled out in this build, complete in the source) |

The classes `FatFs`, `Fil` and `Dir` have the fields of FATFS, FIL and DIR; their methods change them as the C functions
do. A ghost field names the cluster chain of an open file and the table of a directory. Every method is proved
against the logical disk, so a dirty window, a direct transfer past the window, or the growing-edge shortcut is
invisible to the layers above.

Every operation that touches the disk also keeps all FAT copies of the logical disk equal; with a clean window the device is
the logical disk.

`FileIo.Fil.Write` says what happens to the file that is written and that no cluster outside it changes except
free ones; `FileData.OtherFileKept` turns that into "every other file keeps its chain and its bytes", and
`FileData.GrewKeepsFamily` into "the chains are still disjoint".

## FFT

`Fft` takes cos, sin and 2 pi as a parameter with the addition theorems and the values at 0 and pi; nothing else about them
is used. `FftRec` works in place on the arrays x, X and XX, whose roles are exchanged at every level of the
recursion. `InverseOfSpectrum` and `SpectrumOfInverse` say that the two transforms undo each other for every length 2, 4, 8, ...

## JTAG UART

`JtagUart` is a step relation: a writer and a reader, divided at their accesses to shared variables (every byte of a memcpy is a
step), an interrupt routine that runs to its end before a thread goes on and whose every device access is a step, and
the one-second timer. The device answers as it likes, except that it announces
no further data in an answer without data. `JtagDriver` is the same driver as code on arrays and fields;
interrupts and the alarm may come at every point, and each method is proved to be a run of the step relation. The seconds
without the host are counted as in the source, so a blocking call gives up only when the host counts as inactive.
The ring length is a parameter.

## Alarms

`Alarms` compares the 32-bit counter, the wrapped alarm times and the rollover flag with an unbounded clock.

## Where the code and its documentation differ, and other findings

* Sub-type boundaries: 4086 and 65526 clusters, not 4085 and 65525 as in the section "FAT Type Determination" of
  the Microsoft FAT32 File System Specification. The code says so itself; the model follows the code.
* chk_mounted adds the system areas in 32 bits. A boot record whose sum wraps is accepted with an unusable layout
  (`Geometry.WrappedIsAccepted`); `Geometry.AcceptedIsSound` gives the exact condition.
* create_chain with an unknown free count moves the hint without marking FSInfo for writing, so the hint on the device can stay
  behind the one in memory; `Allocator.SyncTellsTheBooks` says exactly when it does not.
* f_write returns 0 bytes and FR_OK whenever file size plus length reaches 2^32, also when the bytes would only
  overwrite old ones; its return value does not distinguish this from a full disk.
* create_chain returns 0 exactly when no cluster is free and no FAT entry holds 1; at an entry 1 that the scan meets before a free
  cluster it returns the error 1. So "0 exactly when no cluster is free" holds if and only if some cluster is free or no entry holds 1
  (`Allocator.ScanFailsOnlyWhenFull`, with a failing FAT in `Allocator.ScanMeetsOne`). A FAT made of chains and free clusters has
  no such entry. On a file that is not aborted and a directory with a possible start cluster, f_write, f_lseek and dir_register fail
  with FR_INT_ERR for this reason only; f_write has by then stored the error code 1 as the start
  cluster of a file without clusters, and the file object is marked as aborted.
* f_getfree on FAT12 stops at an entry 1 with an error and stores the count so far in free_clust; `Allocator.CountToOneBound`
  says when that count is right. On FAT16 and FAT32 it also counts zero reserved entries.
* put_fat on FAT32 would or the upper four bits of a value into the reserved nibble; no caller passes such a value.
* dir_next advances its sector field before it reports the end of the table; only the index is unchanged then.
* CREATE_LINKMAP aborts when the chain ends in the last cluster of the volume with an end mark equal to the next
  cluster number; end marks written by this driver never do that (`LinkMap.OwnEndMarkIsSafe`).
* alt_alarm_start with the delay 0xFFFFFFFF runs out in the next tick, unless the counter is about to wrap
  (`Alarms.AlwaysOnTime` is the exact condition). Every interval a callback returns is exact.
* JTAG UART write of 0 bytes returns an error, not 0.
* The JTAG UART interrupt routine relies on the device not announcing more data in an answer without data
  (`JtagUart.HonestyIsNeeded`).

## Model

| member | source | states |
|---|---|---|
| `Geometry.AcceptedIsSound` | sw_wxp/de1_ledos/ledos/fatfs/ff.c:2083-2130 | for every accepted boot record of a volume ending below 2^32 without reserved cluster numbers: the layout is sound (areas disjoint and in order, FAT large enough, clusters inside the volume) if and only if the sum of the system areas does not wrap |
| `Geometry.FittingIsSound` | sw_wxp/de1_ledos/ledos/fatfs/ff.c:2083-2130 | the sufficient half: without a wrap, reserved sectors, FAT copies, root directory and data area follow one another inside the volume |
| `Geometry.WrappedIsUnsound` | sw_wxp/de1_ledos/ledos/fatfs/ff.c:2089-2110 | the necessary half: a wrapped sum puts the data area before the end of the FATs, or the FATs before the boot record, so the layout is never sound |
| `Geometry.WrappedIsAccepted` | sw_wxp/de1_ledos/ledos/fatfs/ff.c:2083-2130 | a boot record that is accepted although its sum wraps |
| `Geometry.SystemSectorsExact` | sw_wxp/de1_ledos/ledos/fatfs/ff.c:2086-2107 | the 32-bit sum of the system areas is exact whenever it fits |
| `Geometry.ClusterSector` | sw_wxp/de1_ledos/ledos/fatfs/ff.c:801-809 | sector j of cluster c lies in the data area inside the volume and determines c and j |
| `Geometry.NoSector` | sw_wxp/de1_ledos/ledos/fatfs/ff.c:801-809 | clust2sect answers 0 exactly for a number that is no cluster |
| `Geometry.ClustersDisjoint` | sw_wxp/de1_ledos/ledos/fatfs/ff.c:801-809 | clust2sect maps different clusters to disjoint sector ranges |
| `Geometry.EntryInsideFat` | sw_wxp/de1_ledos/ledos/fatfs/ff.c:831-848 | every byte get_fat and put_fat touch lies inside one FAT |
| `Geometry.PowerOfTwoBits` | sw_wxp/de1_ledos/ledos/fatfs/ff.c:2092-2093 | the bit test on the cluster size accepts exactly the powers of two |
| `Geometry.MaskIsRemainder` | sw_wxp/de1_ledos/ledos/fatfs/ff.c:1135 | masking with csize - 1 is the remainder by csize |
| `Window.FatFs.Mount` | sw_wxp/de1_ledos/ledos/fatfs/ff.c:2117-2153 | a mounted volume: geometry and cluster size of the record, window empty and clean, logical disk = device, free count and hint from FSInfo on FAT32 when it carries the signatures, otherwise unknown and 0 |
| `Window.FatFs.MoveWindow` | sw_wxp/de1_ledos/ledos/fatfs/ff.c:719-751 | the logical disk never changes; the window shows the sector asked for; when the sector changes the device afterwards equals the logical disk and nothing is dirty |
| `Window.FatFs.Patch` | sw_wxp/de1_ledos/ledos/fatfs/ff.c:882-885 | bytes laid over the dirty window change the logical disk only in that sector (and its FAT copy) |
| `Window.FatFs.Sync` | sw_wxp/de1_ledos/ledos/fatfs/ff.c:761-790 | the device becomes the logical disk, plus the FSInfo sector on FAT32 when it was out of date |
| `Window.FillFsInfo` | sw_wxp/de1_ledos/ledos/fatfs/ff.c:773-779 | the FSInfo sector has its signatures and both counters where chk_mounted reads them |
| `Window.FsInfoRoundTrip` | sw_wxp/de1_ledos/ledos/fatfs/ff.c:2138-2148 | the FSInfo sector sync writes carries the signatures and both counters |
| `Window.FsiSectorIsStored` | sw_wxp/de1_ledos/ledos/fatfs/ff.c:2138-2142 | the FSInfo sector looked for is the one the boot record names, on from the boot sector |
| `Window.StoreTwice` | sw_wxp/de1_ledos/ledos/fatfs/ff.c:730-740 | writing a window back twice is writing it back once |
| `Window.StoreKeepsMirror` | sw_wxp/de1_ledos/ledos/fatfs/ff.c:734-740 | a write-back keeps every FAT copy equal to the first FAT |
| `FatAccess.GetFat` | sw_wxp/de1_ledos/ledos/fatfs/ff.c:819-852 | 1 outside 2..n_fatent-1, otherwise the entry of the logical FAT; the logical disk does not change |
| `FatAccess.GetFat12` | sw_wxp/de1_ledos/ledos/fatfs/ff.c:832-838 | a FAT12 entry is read correctly also when its bytes lie in two sectors |
| `FatAccess.PutFat` | sw_wxp/de1_ledos/ledos/fatfs/ff.c:862-915 | an array store for FAT12, FAT16 and FAT32 and every 32-bit value: the entry reads back cut to its width, on FAT32 the upper four bits are or-ed into the reserved nibble, every other entry and nibble and everything outside the FAT stay |
| `FatAccess.PutFat12` | sw_wxp/de1_ledos/ledos/fatfs/ff.c:878-890 | the same for FAT12, with a write-back between the two halves |
| `FatAccess.StoreIsPatch` | sw_wxp/de1_ledos/ledos/fatfs/ff.c:879-905 | patching the window over a FAT sector replaces exactly those bytes of the FAT |
| `FatAccess.StoreKeeps` | sw_wxp/de1_ledos/ledos/fatfs/ff.c:734-740 | a store to a FAT sector leaves sectors outside the FAT area and the mirror property alone |
| `FatAccess.PatchTwice` | sw_wxp/de1_ledos/ledos/fatfs/ff.c:879-889 | two adjoining one-byte patches make one two-byte patch, across a sector border too |
| `FatAccess.PackedReadsBack` | sw_wxp/de1_ledos/ledos/fatfs/ff.c:838-889 | the twelve bits put_fat packs are what get_fat unpacks |
| `FatAccess.PackedKeepsNeighbour` | sw_wxp/de1_ledos/ledos/fatfs/ff.c:883-889 | the other nibble of the shared byte is kept |
| `FatAccess.Value12After` | sw_wxp/de1_ledos/ledos/fatfs/ff.c:832-889 | any FAT12 entry after a store to any other: itself new, the two neighbours and all others old |
| `FatAccess.Entry12After` | sw_wxp/de1_ledos/ledos/fatfs/ff.c:878-890 | the same for entries of a FAT on disk |
| `FatAccess.Patch12StoresLink` | sw_wxp/de1_ledos/ledos/fatfs/ff.c:878-890 | a FAT12 patch is an array store |
| `FatAccess.Patch16StoresLink` | sw_wxp/de1_ledos/ledos/fatfs/ff.c:892-897 | a FAT16 patch is an array store |
| `FatAccess.Packed32ReadsBack` | sw_wxp/de1_ledos/ledos/fatfs/ff.h:328-331 | 28 bits and the reserved nibble read back from the four stored bytes |
| `FatAccess.Entry32After` | sw_wxp/de1_ledos/ledos/fatfs/ff.c:899-905 | a FAT32 store changes one entry and its reserved nibble, no other |
| `FatAccess.Patch32StoresLink` | sw_wxp/de1_ledos/ledos/fatfs/ff.c:899-905 | a FAT32 patch is an array store |
| `FatAccess.HalvesStoreLink` | sw_wxp/de1_ledos/ledos/fatfs/ff.c:879-889 | the two byte writes of the FAT12 case together are an array store |
| `Chains.ChainDistinct` | sw_wxp/de1_ledos/ledos/fatfs/ff.c:941-963 | a chain is acyclic |
| `Chains.ChainUnique` | sw_wxp/de1_ledos/ledos/fatfs/ff.c:941-963 | the first cluster determines the chain |
| `Chains.ChainKept` | sw_wxp/de1_ledos/ledos/fatfs/ff.c:1012-1014 | a chain keeps its meaning when no cluster of it is stored to |
| `Chains.FreeIsOutside` | sw_wxp/de1_ledos/ledos/fatfs/ff.c:1005-1006 | a free cluster belongs to no chain |
| `Chains.NewChain` | sw_wxp/de1_ledos/ledos/fatfs/ff.c:1012-1021 | allocating adds one chain of one cluster to the family of disjoint chains |
| `Chains.StretchChain` | sw_wxp/de1_ledos/ledos/fatfs/ff.c:1012-1021 | stretching appends exactly one free cluster to one chain, all others stay |
| `Chains.DropChain` | sw_wxp/de1_ledos/ledos/fatfs/ff.c:941-963 | freeing a chain removes exactly it from the family |
| `Chains.CutChain` | sw_wxp/de1_ledos/ledos/fatfs/ff.c:3167-3174 | cutting keeps exactly the prefix and leaves the other chains alone |
| `Chains.ReplaceChain` | sw_wxp/de1_ledos/ledos/fatfs/ff.c:3160-3175 | exchanging one chain for one made of its own and free clusters keeps the family |
| `Chains.RemovedChain` | sw_wxp/de1_ledos/ledos/fatfs/ff.c:941-963 | on a chain remove_chain frees exactly its clusters and succeeds |
| `Chains.FreeCountStore` | sw_wxp/de1_ledos/ledos/fatfs/ff.c:946-963 | what one store does to the number of free clusters |
| `Chains.FreeBelowBound` | sw_wxp/de1_ledos/ledos/fatfs/ff.c:998-1010 | the count is zero if and only if no entry is free, and at most n_fatent - 2 |
| `Allocator.SetLink` | sw_wxp/de1_ledos/ledos/fatfs/ff.c:862-915 | put_fat as a store to the array of links |
| `Allocator.GetLink` | sw_wxp/de1_ledos/ledos/fatfs/ff.c:819-853 | get_fat as a look at the array of links |
| `Allocator.EndMarkFits` | sw_wxp/de1_ledos/ledos/fatfs/ff.c:1012 | the end mark 0x0FFFFFFF cut to the entry width is beyond every cluster number |
| `Allocator.RemoveChain` | sw_wxp/de1_ledos/ledos/fatfs/ff.c:925-967 | terminates on every FAT, cyclic ones too; the links become what the walk frees; a right free count stays right, an unknown one unknown; FSInfo is marked for writing exactly when the count is known and something was freed; nothing outside the FAT changes |
| `Allocator.Scan` | sw_wxp/de1_ledos/ledos/fatfs/ff.c:998-1010 | the circular scan ends and returns the first free cluster behind the start, 0 when it comes round, 1 at a link 1 |
| `Allocator.CreateChain` | sw_wxp/de1_ledos/ledos/fatfs/ff.c:977-1027 | existing next cluster, error 1, or a cluster that was free, ended and linked behind clst; a right free count stays right; with an allocation the hint is the cluster, a known count goes down by one and FSInfo is marked for writing; without one count, hint and mark stay |
| `Allocator.Commit` | sw_wxp/de1_ledos/ledos/fatfs/ff.c:1012-1021 | the new cluster is ended, linked, remembered as the hint and taken off a known count, and FSInfo is marked for writing |
| `Allocator.ScanFailsOnlyWhenFull` | sw_wxp/de1_ledos/ledos/fatfs/ff.c:987-1010 | for every FAT and every hint: 0 is returned if and only if no cluster is free and none holds the link 1; so "0 exactly when no cluster is free" holds if and only if some cluster is free or none holds the link 1 |
| `Allocator.ZerosAreFree` | sw_wxp/de1_ledos/ledos/fatfs/ff.c:3108-3125 | all zero entries are the free clusters and the zero ones of entries 0 and 1 |
| `Allocator.CountByEntry` | sw_wxp/de1_ledos/ledos/fatfs/ff.c:3099-3106 | the FAT12 loop counts the free clusters, or those in front of the first link 1, and says which |
| `Allocator.CountBySector` | sw_wxp/de1_ledos/ledos/fatfs/ff.c:3108-3125 | the FAT16 and FAT32 loop counts the zero entries over all FAT sectors |
| `Allocator.GetFree` | sw_wxp/de1_ledos/ledos/fatfs/ff.c:3090-3131 | a plausible count is returned as it stands; otherwise the result of the scan is returned and stored, also on error: free clusters, up to the first link 1 on FAT12, plus zero reserved entries on FAT16 and FAT32; exactly when the stored count is right; FSInfo is marked for writing on FAT32 |
| `ChainRuns.TailRemoved` | sw_wxp/de1_ledos/ledos/fatfs/ff.c:3167-3174 | the tail behind a new end mark is a chain and remove_chain frees it |
| `ChainRuns.StepKeepsPartition` | sw_wxp/de1_ledos/ledos/fatfs/ff.c:925-1027 | each call keeps the FAT a disjoint union of acyclic ended chains and free entries |
| `ChainRuns.RunKeepsPartition` | sw_wxp/de1_ledos/ledos/fatfs/ff.c:925-1027 | so does every run of create_chain, remove_chain and f_truncate |
| `ChainRuns.CreateChainOnChain` | sw_wxp/de1_ledos/ledos/fatfs/ff.c:991-996 | create_chain on a cluster of a chain takes the branch the step relation assumes |
| `FileData.SectAtInjective` | sw_wxp/de1_ledos/ledos/fatfs/ff.c:2416-2418 | different sectors of a file are different sectors of the disk |
| `FileData.GrewKeepsFamily` | sw_wxp/de1_ledos/ledos/fatfs/ff.c:2496-2581 | a file that grew into free clusters leaves a family of disjoint chains |
| `FileData.BytesPutTrans` | sw_wxp/de1_ledos/ledos/fatfs/ff.c:2496-2581 | a write after a write is one write of both pieces |
| `FileData.BytesKept` | sw_wxp/de1_ledos/ledos/fatfs/ff.c:2502-2519 | allocating clusters keeps the bytes of the file |
| `FileData.DirectPut` | sw_wxp/de1_ledos/ledos/fatfs/ff.c:2530-2552 | a direct transfer puts exactly those bytes at the pointer |
| `FileData.PartPut` | sw_wxp/de1_ledos/ledos/fatfs/ff.c:2553-2573 | a partial sector puts exactly those bytes; the bytes of a growing edge lie behind the end of the file |
| `FileData.DirectBytes` | sw_wxp/de1_ledos/ledos/fatfs/ff.c:2416-2436 | whole sectors of one cluster are consecutive bytes of the file |
| `FileData.PartBytes` | sw_wxp/de1_ledos/ledos/fatfs/ff.c:2452-2457 | a slice of one sector is consecutive bytes of the file |
| `FileData.OtherFileKept` | sw_wxp/de1_ledos/ledos/fatfs/ff.c:2496-2581 | a write to one file leaves the chain and every byte of every other file |
| `FileData.WrittenIsRead` | sw_wxp/de1_ledos/ledos/fatfs/ff.c:2373-2581 | what f_write put is what f_read returns |
| `FileData.RoundDown` | sw_wxp/de1_ledos/ledos/fatfs/ff.c:2888-2892 | rounding to a cluster start with a mask |
| `FileData.IntoCluster` | sw_wxp/de1_ledos/ledos/fatfs/ff.c:2906-2927 | where a position inside a cluster lies |
| `Transfer.WriteRun` | sw_wxp/de1_ledos/ledos/fatfs/ff.c:2533-2552 | the logical disk gets exactly the run of sectors, a window over one of them is refilled and clean |
| `Transfer.WritePart` | sw_wxp/de1_ledos/ledos/fatfs/ff.c:2554-2573 | the logical sector gets the bytes and, away from the growing edge, keeps the others |
| `Transfer.ReadRun` | sw_wxp/de1_ledos/ledos/fatfs/ff.c:2419-2436 | the buffer gets the logical sectors, a dirty one from the window |
| `Transfer.ReadPart` | sw_wxp/de1_ledos/ledos/fatfs/ff.c:2452-2457 | the buffer gets the slice of the logical sector |
| `Transfer.OverlaidRun` | sw_wxp/de1_ledos/ledos/fatfs/ff.c:2427-2428 | laying a dirty sector over device data gives logical data |
| `FileIo.Fil.Open` | sw_wxp/de1_ledos/ledos/fatfs/ff.c:2351-2361 | the object of a freshly opened file satisfies the cursor invariant |
| `FileIo.Fil.ClusterForWrite` | sw_wxp/de1_ledos/ledos/fatfs/ff.c:2501-2519 | at a cluster boundary: the next cluster of the chain, or one that was free and is now its last; 0 only with no cluster free and no link 1, 1 only with a link 1, both only at the end of the chain |
| `FileIo.Fil.WriteChunk` | sw_wxp/de1_ledos/ledos/fatfs/ff.c:2498-2578 | one round of the loop of f_write: bytes put, or nothing changed for one of these two reasons |
| `FileIo.Fil.Write` | sw_wxp/de1_ledos/ledos/fatfs/ff.c:2474-2584 | the file becomes the old one with bytes [fptr, fptr + bw) replaced, its size the larger of old size and new pointer, its chain extended by exactly the clusters needed; only its clusters and free ones change; nothing is written when the size would reach 4 GB; otherwise all bytes are put unless the chain ends there and no cluster is free and no link is 1 (short count) or some link is 1 (error); the change flag is set; a right free count stays right |
| `FileIo.Fil.ClusterForRead` | sw_wxp/de1_ledos/ledos/fatfs/ff.c:2400-2415 | at a cluster boundary: the next cluster of the chain |
| `FileIo.Fil.ReadChunk` | sw_wxp/de1_ledos/ledos/fatfs/ff.c:2397-2461 | one round of the loop of f_read |
| `FileIo.Fil.Read` | sw_wxp/de1_ledos/ledos/fatfs/ff.c:2373-2464 | exactly the bytes at fptr up to the end of the file; logical disk, file and the rest of the buffer stay |
| `FileIo.Fil.SeekStart` | sw_wxp/de1_ledos/ledos/fatfs/ff.c:2884-2904 | resuming from the current cluster gives the cursor that walking from the first would give; fails only on a link 1 |
| `FileIo.Fil.SeekStep` | sw_wxp/de1_ledos/ledos/fatfs/ff.c:2907-2920 | one cluster onward, allocated when the file is writable; fails only on a link 1 |
| `FileIo.Fil.SeekWalk` | sw_wxp/de1_ledos/ledos/fatfs/ff.c:2905-2921 | the walk ends in the cluster of the target, or at the end of the last cluster to be had; fails only on a link 1 |
| `FileIo.Fil.SeekTo` | sw_wxp/de1_ledos/ledos/fatfs/ff.c:2884-2929 | the pointer and the cursor after a seek to a position above 0; fails only on a link 1, with a chain too short for the target |
| `FileIo.Fil.Lseek` | sw_wxp/de1_ledos/ledos/fatfs/ff.c:2874-2953 | keeps the cursor invariant; ends at min(ofs, fsize) read-only, at ofs or the end of the last obtainable cluster when writable; allocates exactly the clusters up to there; sets the change flag exactly when the file grew; fails only on a writable file whose chain ends before the target, on a FAT with a link 1; only links of free clusters change; a right free count stays right |
| `FileIo.Fil.TruncateAll` | sw_wxp/de1_ledos/ledos/fatfs/ff.c:3163-3165 | truncation to 0 frees the whole chain |
| `FileIo.Fil.TruncateRest` | sw_wxp/de1_ledos/ledos/fatfs/ff.c:3166-3175 | truncation elsewhere ends the chain at the current cluster and frees the rest |
| `FileIo.Fil.Truncate` | sw_wxp/de1_ledos/ledos/fatfs/ff.c:3142-3180 | size = fptr, chain = the first ceil(fptr / cluster size) clusters, the others free, the change flag set exactly when the file shrank, no data sector changed, a right free count stays right |
| `FileIo.CutKeepsFamily` | sw_wxp/de1_ledos/ledos/fatfs/ff.c:3160-3175 | truncating keeps the family of disjoint chains |
| `FileIo.EndPosition` | sw_wxp/de1_ledos/ledos/fatfs/ff.c:2922-2927 | the position after the walk of f_lseek and its cluster |
| `DirMap.FindIsLookup` | sw_wxp/de1_ledos/ledos/fatfs/ff.c:1369-1401 | the slot dir_find stops at is the entry of the map, and it finds none exactly when the name is absent |
| `DirMap.RegisterWellFormed` | sw_wxp/de1_ledos/ledos/fatfs/ff.c:1541-1564 | a new entry in the first blank slot keeps the directory well-formed |
| `DirMap.RegisterIsInsert` | sw_wxp/de1_ledos/ledos/fatfs/ff.c:1541-1564 | and is insertion into the map |
| `DirMap.StretchIsNeutral` | sw_wxp/de1_ledos/ledos/fatfs/ff.c:1147-1156 | slots of a zeroed cluster add no entry |
| `DirMap.RemoveIsDelete` | sw_wxp/de1_ledos/ledos/fatfs/ff.c:1601-1608 | the deleted mark is deletion from the map |
| `DirMap.EntriesHas` | sw_wxp/de1_ledos/ledos/fatfs/ff.c:1372-1398 | the map holds exactly the live slots |
| `DirData.SlotPlace` | sw_wxp/de1_ledos/ledos/fatfs/ff.c:1085-1100 | different slots are different bytes of the disk |
| `DirData.PatchTable` | sw_wxp/de1_ledos/ledos/fatfs/ff.c:1557-1562 | storing one slot changes the table in that slot only |
| `DirData.StretchedTable` | sw_wxp/de1_ledos/ledos/fatfs/ff.c:1143-1156 | a directory stretched by a zeroed cluster is the old table followed by zero slots |
| `DirData.ZeroedIsStretched` | sw_wxp/de1_ledos/ledos/fatfs/ff.c:1148-1156 | zeroing the new cluster through the window touches nothing else |
| `DirData.NextInSector` | sw_wxp/de1_ledos/ledos/fatfs/ff.c:1127-1168 | the next slot in the same sector |
| `DirData.NextSector` | sw_wxp/de1_ledos/ledos/fatfs/ff.c:1127-1135 | the next slot in the next sector |
| `DirData.ArriveInCluster` | sw_wxp/de1_ledos/ledos/fatfs/ff.c:1161-1162 | the next slot in the next cluster |
| `Directory.ZeroCluster` | sw_wxp/de1_ledos/ledos/fatfs/ff.c:1148-1156 | the new cluster is all zeros on the logical disk, nothing else changes, and the window is coherent again |
| `Directory.Dir.constructor` | sw_wxp/de1_ledos/ledos/fatfs/ff.c:1065-1081 | a directory object on a table of the volume |
| `Directory.Dir.Sdi` | sw_wxp/de1_ledos/ledos/fatfs/ff.c:1065-1103 | on every directory, the root directories included, succeeds exactly for indices inside the table and then points at that slot; refuses any other start cluster |
| `Directory.Dir.Next` | sw_wxp/de1_ledos/ledos/fatfs/ff.c:1113-1171 | success from index i is the position dir_sdi(i + 1) gives; stretches by one zeroed cluster only when allowed and needed; refused only at the end of the table, with no cluster free, or (an error) with a link 1 |
| `Directory.Dir.StretchTable` | sw_wxp/de1_ledos/ledos/fatfs/ff.c:1143-1156 | one free cluster appended to the directory and zeroed; 0 only with no cluster free and no link 1, 1 only with a link 1 |
| `Directory.Dir.Find` | sw_wxp/de1_ledos/ledos/fatfs/ff.c:1353-1404 | on every directory: success or no file; on a well-formed one success if and only if the name is in the map, pointing at its entry |
| `Directory.Dir.FindBlank` | sw_wxp/de1_ledos/ledos/fatfs/ff.c:1541-1550 | on every directory: the first blank slot, in a table grown by zero slots only when every slot is in use; failure only when every slot is in use and the table is static or full, no cluster is free, or some link is 1 |
| `Directory.Dir.Register` | sw_wxp/de1_ledos/ledos/fatfs/ff.c:1541-1566 | on every directory: insertion of an absent name; every other entry and everything outside the directory stays; failure only for the reasons of FindBlank; a right free count stays right |
| `Directory.Dir.Remove` | sw_wxp/de1_ledos/ledos/fatfs/ff.c:1601-1608 | deletion of the current entry; every other entry stays |
| `Names.CreateName` | sw_wxp/de1_ledos/ledos/fatfs/ff.c:1757-1825 | the loops compute `ParseName`: 11 bytes, last-segment and dot flags, start of the next segment, or a refusal |
| `Names.CreateChars` | sw_wxp/de1_ledos/ledos/fatfs/ff.c:1776-1817 | the character loop |
| `Names.CreateDots` | sw_wxp/de1_ledos/ledos/fatfs/ff.c:1763-1775 | the dot entries |
| `Names.GetFileInfo` | sw_wxp/de1_ledos/ledos/fatfs/ff.c:1847-1885 | the loops print `PrintName` of the stored bytes and end it with 0, within 13 bytes |
| `Names.CopyBody` | sw_wxp/de1_ledos/ledos/fatfs/ff.c:1851-1863 | the body up to the first space, 0x05 printed as 0xE5 |
| `Names.CopyExtension` | sw_wxp/de1_ledos/ledos/fatfs/ff.c:1864-1877 | dot and extension |
| `Names.ParsedIsAccepted` | sw_wxp/de1_ledos/ledos/fatfs/ff.c:1758-1825 | an accepted segment yields padded body and extension of stored characters and whole two-byte characters, no lower case, or a dot entry |
| `Names.TextIsParsed` | sw_wxp/de1_ledos/ledos/fatfs/ff.c:1758-1825 | conversely every such name is produced by parsing its text, whatever ends the segment |
| `Names.PrintedIsText` | sw_wxp/de1_ledos/ledos/fatfs/ff.c:1847-1877 | a stored name is printed as body, dot, extension |
| `Names.RoundTrip` | sw_wxp/de1_ledos/ledos/fatfs/ff.c:1758-1884 | for every accepted segment, parsing what get_fileinfo prints gives the same 11 bytes, in any path position |
| `Names.PrintIsInjective` | sw_wxp/de1_ledos/ledos/fatfs/ff.c:1847-1877 | different stored names are printed differently |
| `Names.ParsedIsProper` | sw_wxp/de1_ledos/ledos/fatfs/ff.c:1816-1817 | no stored name starts with the end mark or the deleted mark |
| `Names.CaseIsIgnored` | sw_wxp/de1_ledos/ledos/fatfs/ff.c:1794-1811 | lower-case letters and upper-case letters parse alike; second bytes of two-byte characters are never folded |
| `Names.CharsCopy` | sw_wxp/de1_ledos/ledos/fatfs/ff.c:1776-1812 | characters that can be stored are copied unchanged into the field |
| `LinkMap.ClmtClust` | sw_wxp/de1_ledos/ledos/fatfs/ff.c:1038-1055 | from a map of the chain: the cluster the chain has at that offset, 0 beyond its end |
| `LinkMap.GetFragment` | sw_wxp/de1_ledos/ledos/fatfs/ff.c:2827-2834 | the longest run of consecutive clusters from here on |
| `LinkMap.CreateLinkMap` | sw_wxp/de1_ledos/ledos/fatfs/ff.c:2821-2844 | reports the exact size needed; writes nothing at or behind the given length except the first word; a map that fits expands to the chain; aborts exactly when the chain ends in the last cluster with an end mark equal to the next number |
| `LinkMap.EndMarkAtLimit` | sw_wxp/de1_ledos/ledos/fatfs/ff.c:2829-2838 | when that happens the end mark is n_fatent itself |
| `LinkMap.OwnEndMarkIsSafe` | sw_wxp/de1_ledos/ledos/fatfs/ff.c:1012 | a chain ended by this driver never makes CREATE_LINKMAP abort |
| `Fft.FftRec` | verif/tb/dpi/fft.c:56-103 | the N-point DFT of the stride class of x lands in the same class of X; X and XX change only inside that class, x not at all |
| `Fft.Combine` | verif/tb/dpi/fft.c:74-88 | the butterfly loop turns the two half transforms into the whole one |
| `Fft.TwoPoints` | verif/tb/dpi/fft.c:92-96 | the 2-point transform |
| `Fft.Fft` | verif/tb/dpi/fft.c:43-53 | the first N elements of X become the DFT of the first N samples of x |
| `Fft.Ifft` | verif/tb/dpi/fft.c:106-122 | the first N elements of x become the inverse DFT of X |
| `Fft.DivideAndReverse` | verif/tb/dpi/fft.c:114-121 | every element moves to index -i modulo N and is divided by N |
| `Fft.Butterfly` | verif/tb/dpi/fft.c:76-84 | outputs k and k + N/2 from the two half transforms and one product, for any even length whose half is even or 1 |
| `Fft.Decimation` | verif/tb/dpi/fft.c:70-88 | a transform from the transforms of its even and odd samples |
| `Fft.DftPeriod` | verif/tb/dpi/fft.c:76-84 | a transform is periodic in its length |
| `Fft.FirstHalfSurvives` | verif/tb/dpi/fft.c:70-71 | the second recursive call never touches what the first one wrote |
| `Fft.HalvesApart` | verif/tb/dpi/fft.c:70-71 | the two stride classes of the recursive calls are disjoint |
| `Fft.OnlyHalves` | verif/tb/dpi/fft.c:70-71 | together they stay inside the class of the caller |
| `Fft.StrideHalves` | verif/tb/dpi/fft.c:70-71 | the even and odd samples of a stride class are the two classes of twice the distance |
| `Fft.Orthogonality` | verif/tb/dpi/fft.c:112-121 | the N-th roots of unity to the power d sum to N for d = 0 and to 0 for every other d between -N and N |
| `Fft.ThereAndBack` | verif/tb/dpi/fft.c:106-122 | transforming there and back multiplies each sample by N |
| `Fft.InverseOfSpectrum` | verif/tb/dpi/fft.c:106-122 | ifft undoes fft for every N = 2^n, n >= 1 |
| `Fft.SpectrumOfInverse` | verif/tb/dpi/fft.c:106-122 | and fft undoes ifft |
| `Fft.MirrorFrequency` | verif/tb/dpi/fft.c:112-121 | frequency -k is frequency N - k |
| `Rings.PushMany` | sw_wxp/de1_limbus_bsp/drivers/src/altera_avalon_jtag_uart_write.c:122-126 | advancing the write index over free cells appends their bytes |
| `Rings.PopMany` | sw_wxp/de1_limbus_bsp/drivers/src/altera_avalon_jtag_uart_read.c:136-140 | advancing the read index removes the oldest bytes |
| `Rings.PutFree` | sw_wxp/de1_limbus_bsp/drivers/src/altera_avalon_jtag_uart_write.c:122 | storing into free cells does not change the contents |
| `Rings.ContentsSize` | sw_wxp/de1_limbus_bsp/drivers/src/altera_avalon_jtag_uart_write.c:106-117 | a ring is empty exactly when the indices agree and never holds as many bytes as it has cells |
| `JtagUart.RoomFits` | sw_wxp/de1_limbus_bsp/drivers/src/altera_avalon_jtag_uart_write.c:109-117 | the room write computes never reaches the read index, and is 0 exactly in a full ring |
| `JtagUart.ReadyFits` | sw_wxp/de1_limbus_bsp/drivers/src/altera_avalon_jtag_uart_read.c:125-131 | the amount read computes never passes the write index, and is 0 exactly in an empty ring |
| `JtagUart.NextKeeps` | sw_wxp/de1_limbus_bsp/drivers/src/altera_avalon_jtag_uart_init.c:110-225 | every step of writer, reader, interrupt routine and timer keeps the invariant, given RAVAIL = 0 whenever RVALID = 0 |
| `JtagUart.RunKeeps` | sw_wxp/de1_limbus_bsp/drivers/src/altera_avalon_jtag_uart_init.c:110-225 | so does every interleaving |
| `JtagUart.WriterNextKeeps` | sw_wxp/de1_limbus_bsp/drivers/src/altera_avalon_jtag_uart_write.c:84-202 | the writer is never stuck and keeps its part |
| `JtagUart.ReaderNextKeeps` | sw_wxp/de1_limbus_bsp/drivers/src/altera_avalon_jtag_uart_read.c:101-203 | the reader is never stuck and keeps its part |
| `JtagUart.WriterUndisturbed` | sw_wxp/de1_limbus_bsp/drivers/src/altera_avalon_jtag_uart_init.c:174-184 | the transmit loop of the interrupt routine does not disturb a copying writer |
| `JtagUart.ReaderUndisturbed` | sw_wxp/de1_limbus_bsp/drivers/src/altera_avalon_jtag_uart_init.c:132-154 | the receive loop does not disturb a copying reader |
| `JtagUart.FifoOrder` | sw_wxp/de1_limbus_bsp/drivers/src/altera_avalon_jtag_uart_write.c:103-127 | over every run: accepted = sent followed by the ring, taken = returned followed by the ring |
| `JtagUart.WriteReturns` | sw_wxp/de1_limbus_bsp/drivers/src/altera_avalon_jtag_uart_write.c:196-201 | a positive result is the number of bytes put in, and they are the first bytes of the call |
| `JtagUart.ReadReturns` | sw_wxp/de1_limbus_bsp/drivers/src/altera_avalon_jtag_uart_read.c:188-202 | what read hands over is exactly what left the ring, at most the space given |
| `JtagUart.NoLostWakeUp` | sw_wxp/de1_limbus_bsp/drivers/src/altera_avalon_jtag_uart_write.c:129-139 | over every run: a non-empty transmit ring means write interrupts are on or a kick is pending; reading off means a full ring or a reader about to switch it on |
| `JtagUart.WaitsAreExact` | sw_wxp/de1_limbus_bsp/drivers/src/altera_avalon_jtag_uart_write.c:180-185 | the wait loops compare one wrapped index, yet no change means exactly: still full, or still empty |
| `JtagUart.HonestyIsNeeded` | sw_wxp/de1_limbus_bsp/drivers/src/altera_avalon_jtag_uart_init.c:141-166 | whenever the device announces more data in an answer without data, reading is switched off with room in the ring and nobody to switch it on |
| `JtagDriver.Driver.constructor` | sw_wxp/de1_limbus_bsp/drivers/src/altera_avalon_jtag_uart_init.c:66-96 | the initial state: empty rings, read interrupts on, host present, no timeout without an alarm |
| `JtagDriver.Driver.Irq` | sw_wxp/de1_limbus_bsp/drivers/src/altera_avalon_jtag_uart_init.c:110-197 | the interrupt routine is a run of the step relation for every device behaviour; what its first control and data word ask for is done: bytes sent, the byte taken, or the interrupt switched off; nothing happens without a request |
| `JtagDriver.Driver.Fill` | sw_wxp/de1_limbus_bsp/drivers/src/altera_avalon_jtag_uart_init.c:132-154 | the receive loop ends, takes the byte offered first unless the ring is full, and is a run of the step relation |
| `JtagDriver.Driver.Transmit` | sw_wxp/de1_limbus_bsp/drivers/src/altera_avalon_jtag_uart_init.c:169-195 | the transmit branch sends as many bytes as there are and the device has space for, switches write interrupts off exactly when space is left, and is a run of the step relation |
| `JtagDriver.Driver.CopyIn` | sw_wxp/de1_limbus_bsp/drivers/src/altera_avalon_jtag_uart_write.c:103-127 | the copy loop of write, with interrupts at every point; it puts in everything or at least what fitted at its start |
| `JtagDriver.Driver.Write` | sw_wxp/de1_limbus_bsp/drivers/src/altera_avalon_jtag_uart_write.c:84-202 | write ends, is a run of the step relation, and its result tells exactly what was put in: at least what fitted at the start, and in blocking mode everything unless the ring is full and the host inactive |
| `JtagDriver.Driver.TakeOut` | sw_wxp/de1_limbus_bsp/drivers/src/altera_avalon_jtag_uart_read.c:120-142 | the copy loop of read, with interrupts at every point; it takes all the space or at least what was there at its start |
| `JtagDriver.Driver.Read` | sw_wxp/de1_limbus_bsp/drivers/src/altera_avalon_jtag_uart_read.c:101-203 | read ends, is a run of the step relation, and returns exactly what left the ring: at least what was there at the start, and in blocking mode nothing only with an empty ring and an inactive host |
| `JtagDriver.ReachesThrough` | sw_wxp/de1_limbus_bsp/drivers/src/altera_avalon_jtag_uart_init.c:110-197 | runs compose |
| `Alarms.StartedTracks` | sw_wxp/de1_limbus_bsp/HAL/src/alt_alarm_start.c:80-96 | a started alarm stands for start + nticks + 1 if and only if nticks + 1 < 2^32 or the counter is about to wrap |
| `Alarms.TickTracks` | sw_wxp/de1_limbus_bsp/HAL/src/alt_tick.c:94-115 | it expires in exactly the tick it is due and keeps standing for that time until then |
| `Alarms.RearmedTracks` | sw_wxp/de1_limbus_bsp/HAL/src/alt_tick.c:125-138 | after the callback it stands for the previous time plus the returned interval, whatever that is |
| `Alarms.FiresOnTime` | sw_wxp/de1_limbus_bsp/HAL/src/alt_tick.c:87-148 | from then on the callback times are those of an unbounded clock |
| `Alarms.AlwaysOnTime` | sw_wxp/de1_limbus_bsp/HAL/src/alt_alarm_start.c:80-96 | callbacks at start + nticks + 1 and at each previous time plus interval, for all answers and any number of wraps, if and only if nticks + 1 < 2^32 or the counter is about to wrap |
| `Alarms.FiresTooEarly` | sw_wxp/de1_limbus_bsp/HAL/src/alt_alarm_start.c:80-96 | the delay 0xFFFFFFFF started at any other counter value runs out in the next tick |
| `Alarms.Clock.Start` | sw_wxp/de1_limbus_bsp/HAL/src/alt_alarm_start.c:71-111 | error without clock or alarm, otherwise the alarm at the head of the list with its time set |
| `Alarms.Clock.Stop` | sw_wxp/de1_limbus_bsp/HAL/src/alt_tick.c:66-73 | exactly that alarm leaves the list |
| `Alarms.Clock.Process` | sw_wxp/de1_limbus_bsp/HAL/src/alt_tick.c:104-139 | one alarm in one tick |
| `Alarms.Clock.Walk` | sw_wxp/de1_limbus_bsp/HAL/src/alt_tick.c:100-141 | the loop over the list, in which alarms remove themselves |
| `Alarms.Clock.Tick` | sw_wxp/de1_limbus_bsp/HAL/src/alt_tick.c:87-148 | callbacks are made for exactly the alarms due now; those that returned 0 leave the list, those that returned an interval are due that much later, all others are unchanged |
| `JtagDriver.Driver.Close` | sw_wxp/de1_limbus_bsp/drivers/src/altera_avalon_jtag_uart_init.c:241-254 | 0 means that everything write has accepted has been sent, or that the host is inactive; -EWOULDBLOCK only with bytes left and an active host; a call that must not block answers at once and changes nothing |
| `JtagDriver.Driver.CopyChunk` | sw_wxp/de1_limbus_bsp/drivers/src/altera_avalon_jtag_uart_write.c:122-126 | memcpy and the store to tx_in, interruptible after every byte |
| `JtagDriver.Driver.TakeChunk` | sw_wxp/de1_limbus_bsp/drivers/src/altera_avalon_jtag_uart_read.c:136-140 | memcpy and the store to rx_out, interruptible after every byte |
| `JtagDriver.Driver.WaitForRoom` | sw_wxp/de1_limbus_bsp/drivers/src/altera_avalon_jtag_uart_write.c:180-185 | the wait ends with room in the ring exactly, or with the ring full and the host inactive |
| `JtagDriver.Driver.WaitForData` | sw_wxp/de1_limbus_bsp/drivers/src/altera_avalon_jtag_uart_read.c:173-178 | the wait ends with data in the ring exactly, or with the ring empty and the host inactive |
| `Alarms.Clock.constructor` | sw_wxp/de1_limbus_bsp/HAL/src/alt_tick.c:43-57 | tick 0, empty list |
| `FileIo.Fil.WriteLoop` | sw_wxp/de1_ledos/ledos/fatfs/ff.c:2498-2578 | the loop of f_write: exactly the bytes put so far, stopped early only at the end of the chain, with no cluster free (Ok) or with a link 1 (error, start cluster 1 for a file without clusters) |
| `FileIo.Fil.SeekMove` | sw_wxp/de1_ledos/ledos/fatfs/ff.c:2884-2929 | pointer and cluster after the walk, from 0 on; fails only on a link 1, with a chain too short for the target |
| `FileIo.Fil.SeekFinish` | sw_wxp/de1_ledos/ledos/fatfs/ff.c:2930-2948 | the sector of the cursor, a grown size and the change flag |
| `Geometry.PlainIsAccepted` | sw_wxp/de1_ledos/ledos/fatfs/ff.c:2083-2130 | an ordinary boot record is accepted with a sound layout |
| `Window.CountersSurvive` | sw_wxp/de1_ledos/ledos/fatfs/ff.c:2138-2148 | mounting the disk that sync leaves recovers free count and hint |
| `FatAccess.ShowFatByte` | sw_wxp/de1_ledos/ledos/fatfs/ff.c:880-889 | the window shows any byte of the FAT after move_window to its sector |
| `FatAccess.Entry16After` | sw_wxp/de1_ledos/ledos/fatfs/ff.c:892-897 | a FAT16 store changes one entry |
| `Allocator.ScanMeetsOne` | sw_wxp/de1_ledos/ledos/fatfs/ff.c:1005-1009 | a FAT without free clusters on which every allocation returns 1 |
| `Allocator.FamilyHasNoOne` | sw_wxp/de1_ledos/ledos/fatfs/ff.c:1005-1009 | a FAT that is a family of chains and free clusters has no link 1 |
| `Allocator.PartialIsRight` | sw_wxp/de1_ledos/ledos/fatfs/ff.c:3101-3106 | stopping at the first link 1 counts right exactly when no free cluster lies behind it |
| `Allocator.CountToOneBound` | sw_wxp/de1_ledos/ledos/fatfs/ff.c:3101-3127 | the count an error leaves in free_clust is never too large, and right exactly when no free cluster lies behind the first link 1 |
| `Allocator.NextEntry` | sw_wxp/de1_ledos/ledos/fatfs/ff.c:3111-3125 | one round of the FAT16 and FAT32 loop looks at exactly the next entry |
| `FileData.GrewKeepsOnes` | sw_wxp/de1_ledos/ledos/fatfs/ff.c:1012-1021 | allocating clusters to a file neither makes nor removes a link 1 |
| `FileIo.Fil.ReadLoop` | sw_wxp/de1_ledos/ledos/fatfs/ff.c:2397-2461 | the loop of f_read puts exactly the bytes at the pointer into the buffer |
| `Directory.Dir.SearchBlank` | sw_wxp/de1_ledos/ledos/fatfs/ff.c:1543-1549 | the loop of that search |
| `LinkMap.AbortingChain` | sw_wxp/de1_ledos/ledos/fatfs/ff.c:2829-2834 | a chain that makes CREATE_LINKMAP abort |
| `JtagUart.DishonestyMatters` | sw_wxp/de1_limbus_bsp/drivers/src/altera_avalon_jtag_uart_init.c:125-144 | such a state comes about with the first read interrupt |
| `JtagDriver.Driver.Round` | sw_wxp/de1_limbus_bsp/drivers/src/altera_avalon_jtag_uart_init.c:119-195 | one round of the interrupt routine |
| `JtagDriver.Driver.Receive` | sw_wxp/de1_limbus_bsp/drivers/src/altera_avalon_jtag_uart_init.c:125-167 | the receive branch: the byte is taken, or in a full ring read interrupts go off |
| `Alarms.Clock.Advance` | sw_wxp/de1_limbus_bsp/HAL/src/alt_tick.c:100-141 | one round of the loop over the list |
| `Geometry.StoredIsRead` | sw_wxp/de1_ledos/ledos/fatfs/ff.c:3695-3722 | the fields of a boot record are read where the formatter stores them |
| `Geometry.AcceptedIsDescribed` | sw_wxp/de1_ledos/ledos/fatfs/ff.c:2083-2130 | for sums that fit, the accepted records are exactly those that describe a volume: one or two FATs, a power of two of sectors per cluster, whole root-directory sectors, none exactly on FAT32, at least one cluster, a type that follows from their number, and a FAT that holds the last entry |
| `Geometry.MountedAsDescribed` | sw_wxp/de1_ledos/ledos/fatfs/ff.c:2086-2128 | every field of the mounted geometry: cluster size and areas as recorded, as many clusters as fit and no more, the type by their number |
| `Geometry.FatBytesExact` | sw_wxp/de1_ledos/ledos/fatfs/ff.c:2121-2127 | the required FAT size ends with the last entry |
| `Allocator.StaysInStep` | sw_wxp/de1_ledos/ledos/fatfs/ff.c:1016-1021 | FSInfo on the logical disk tells the count in memory, and the hint if the count is known, or is marked for writing: every call keeps this |
| `Allocator.MountedInStep` | sw_wxp/de1_ledos/ledos/fatfs/ff.c:2138-2148 | it holds after mounting |
| `Allocator.SyncTellsTheBooks` | sw_wxp/de1_ledos/ledos/fatfs/ff.c:768-783 | after sync the next mount starts with the count in memory, and with the hint unless the count is unknown and FSInfo was not written |
| `Allocator.AllocationReachesFsInfo` | sw_wxp/de1_ledos/ledos/fatfs/ff.c:768-1021 | allocating or freeing, then sync: the next mount starts with the new count |
| `Directory.Dir.SearchName` | sw_wxp/de1_ledos/ledos/fatfs/ff.c:1369-1401 | the loop of that search |
| `Directory.Dir.GoodStart` | sw_wxp/de1_ledos/ledos/fatfs/ff.c:1076-1077 | no directory has a start cluster that dir_sdi refuses |
| `DirMap.NewEntry` | sw_wxp/de1_ledos/ledos/fatfs/ff.c:1557-1558 | the new entry holds the name and zeros |
| `Names.NameSaysSegment` | sw_wxp/de1_ledos/ledos/fatfs/ff.c:1758-1884 | soundness: the segment behind leading separators, in upper case, is what get_fileinfo prints for the stored name, but for a trailing dot, and the segment ends where create_name says |
| `Names.BodySaid` | sw_wxp/de1_ledos/ledos/fatfs/ff.c:1776-1817 | the same for the character loop in the body |
| `Names.ExtensionSaid` | sw_wxp/de1_ledos/ledos/fatfs/ff.c:1776-1812 | and in the extension |
| `Names.LettersAreFolded` | sw_wxp/de1_ledos/ledos/fatfs/ff.c:1806-1807 | each lower-case letter is stored as its capital, capitals as they are |
| `Names.Cp932Edges` | sw_wxp/de1_ledos/ledos/fatfs/ff.c:158-168 | the ends of the ranges of first and second bytes of a two-byte character of code page 932 |
| `Names.IllegalAreListed` | sw_wxp/de1_ledos/ledos/fatfs/ff.c:1801 | exactly the listed characters are refused |
| `Names.LeadingSeparator` | sw_wxp/de1_ledos/ledos/fatfs/ff.c:1759 | a separator in front of a path is skipped |
| `JtagDriver.Driver.Timeout` | sw_wxp/de1_limbus_bsp/drivers/src/altera_avalon_jtag_uart_init.c:204-225 | once a second: the seconds without the host are counted, or start again; nothing else changes |
| `JtagDriver.Driver.HostReads` | sw_wxp/de1_limbus_bsp/drivers/src/altera_avalon_jtag_uart_write.c:180-185 | what ends a wait for room: a byte goes to the host, or the host counts as inactive |
| `JtagDriver.Driver.HostWrites` | sw_wxp/de1_limbus_bsp/drivers/src/altera_avalon_jtag_uart_read.c:173-178 | what ends a wait for data: a byte comes from the host, or the host counts as inactive |

## Left out

- Failures of the disk: sectors are read and written successfully. validate(), write protection, the re-mount path of chk_mounted and disk_ioctl are not modelled.
- Power loss: the order in which sectors reach the device is not a subject of the proofs.
- The search for a partition: the boot record at a given sector is the input.
- Volumes whose cluster numbers reach the reserved FAT32 values (more than 0x0FFFFFF5 clusters), and volumes that end behind sector 2^32.
- A branch of f_read, f_write and f_lseek that cannot be reached for a file with a chain: clust2sect returning 0.
- Long names, f_mkfs, f_fdisk, f_forward, the string functions, locking and sharing: compiled out in this build.
- f_open, f_sync, f_opendir, f_readdir, f_mkdir, f_unlink, f_rename, follow_path, f_chdir, f_getcwd: they combine the functions modelled here; f_mkdir leaves the window out of step for a moment when a cluster has one sector.
- Timestamps, attributes and sizes in directory entries, which get_fileinfo copies out field by field.
- Names.CreateName: without the two lower-case flag bits kept in the twelfth byte of the name, which nothing in this build reads.
- Directory.Dir.Register: an insertion is stated for a name that is not in the directory and a first byte that is neither mark, which is how its callers use it.
- The fast-seek branches of f_read, f_write and f_lseek; only the table builder and its look-up are modelled.
- Rounding: the FFT is over exact numbers, with cos, sin and 2 pi given by their laws. The three buffers are distinct, as the usage text of fft.c implies. malloc succeeds.
- JtagDriver.Driver.Irq: the device stops asking for attention after some number of rounds, otherwise the routine would not end.
- Waits that never end: the environment of a blocking call is fair, sooner or later the host takes or sends a byte or counts as inactive. JtagDriver.Driver.CanEnd excludes the one wait that cannot end, on rings of one cell without a timeout. The step relation needs neither.
- JTAG UART with several writers or several readers at a time: the semaphores that exclude them are taken as working. With an operating system a wait may also end early on an event flag; the step relation lets a wait end at any time, JtagDriver follows the loops without an operating system. The small driver is not modelled.
- The values of EWOULDBLOCK, EIO, ENOTSUP and EINVAL come from the C library and are not part of this repository.
- Alarm callbacks return an interval; callbacks that start or stop other alarms are not modelled. An alarm is not started twice.
- Alarms.Clock.Start: with the delay 0xFFFFFFFF the new state is given, the invariant only when the counter is about to wrap.
- The operating-system hook at the end of alt_tick.

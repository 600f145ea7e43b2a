# Mohhdy kernel: a Dafny model of its core

Mohhdy is a freestanding i386 kernel in C. This project models the parts of it whose correctness is hardest to see and
proves what they promise: the multi-limb arithmetic under its cryptography, the overlay filesystem and its disk image, the
queue of disk jobs shared with a user-space driver, the line editor, the display character set, two one-slot relays and the
P-256 layer. `dafny verify dfyconfig.toml` checks the whole project.

| files | source | what is modelled |
|---|---|---|
| `Words`, `Congruence`, `Limbs`, `BigInt`, `MaskedProduct`, `ModArith`, `Montgomery`, `ModExp`, `BigBytes` | `kernel/bigint.c` | limb buffers changed in place; every 64-bit accumulator is a bounded type, so each assignment to one is a proof that it does not overflow |
| `OverlayPaths`, `OverlayState`, `OverlayOps`, `OverlayTree`, `OverlayCopy` | `fs/overlay.c` | the pool of 288 chained nodes as an array; the items it holds, each in a chain of its own; the map from paths to directories and files that lookups see |
| `OverlayImage`, `OverlayListing`, `OverlayLoading`, `OverlaySnapshot` | `fs/overlay.c` | the dense v3 and v4 images: records, writer, two-pass reader |
| `OverlayRuns`, `OverlayCases` | `fs/overlay.c` | any sequence of calls; sequences that show where the store stops being a map |
| `AtaJob`, `AtaQueue`, `AtaSystem` | `kernel/ata_job.c` | the job queue as an object, with a ledger of changes, snapshots, moved sectors and spent jobs; the queue together with a disk, a driver and other writers |
| `LineEdit` | `kernel/line_edit.c` | editor, history ring and a terminal of cells with a cursor |
| `Utf8`, `Charset`, `CharsetRoundTrip` | `include/os_charset.h` | decoder, page lookup, converters in both directions and in place |
| `P256Field`, `CurveIdentities`, `P256Curve`, `P256Point`, `P256` | `kernel/ecdsa_p256.c` | field calls and point formulas on limbs, refined to formulas on values; scalar multiplication; DER signatures |
| `AiRelay`, `AtaFsop` | `kernel/ai_relay.c`, `kernel/ata_fsop.c` | the one-slot relays with their counters |
| `Buffers` | | byte loops shared by the above |

State that the C code keeps in static variables is the state of a class. Where it keeps many scalars, they are one record
field that the methods update, and each method's contract gives the new record in full. A ghost ledger beside it says what
the sequence of calls so far amounts to.

The overlay has two invariants. `OverlayOps.Overlay.Sound` is what no call ever breaks, on any argument and any image: the
pool holds its items, each in a chain of its own, and no node is leaked or shared. `OverlayOps.Overlay.Valid` is what the
header file promises besides: unique paths in a tree, full blocks, files within the limit, and an image that fits on disk.
Every operation is specified on sound states, and says exactly when a valid one stays valid.

## Where the code falls short of its promise

Each of these is stated exactly in the contract or lemma named.

- `bigint_modexp` returns 1 instead of 0 for a modulus of value 1 that is written with leading zero limbs, when the exponent
  makes the plain path take no product (`ModExp.Delivered`, `ModExp.DeliversPower`, `ModExp.PaddedOne`). Every other input
  gives the power.
- `ov_normalize` strips one leading `./` only, and write, append, mkdir and the directory query normalise twice. On a path
  that still begins with `./` after the first time, a write replaces or loses another entry and is not found by the next
  write (`OverlayPaths.NormalizeStable`, `OverlayOps.WrittenIsFound`, `OverlayCases.WriteToUnstablePath`). Writing it twice
  leaves two items with one path (`OverlayCases.WriteTwice`); `OverlayOps.Mkdir`, `OverlayOps.Write` and
  `OverlayOps.Append` say exactly when paths stay unique.
- Rename and copy move overlay entries only. A file below the moved directory whose own directory exists only in the
  ramdisk is left without a parent; the tree is kept exactly when this does not occur and the new name does not hide what
  is below it (`OverlayTree.RenamedTree`, `OverlayCopy.CopyKeepsTree`, `OverlayTree.MoveLosesParent`). A later rename onto
  the missing directory passes every check and gives two files one path (`OverlayCases.RenameOntoLost`); paths stay
  unique exactly when no moved path is taken (`OverlayTree.MovedUnique`, `OverlayCopy.CopiedUnique`).
- Copy reads each file by its path. A file stored under a path that begins with `./` is looked up elsewhere: the copy then
  stops half way, after the checks that should have refused it (`OverlayCases.HalfACopy`), or takes the contents of
  another file, which can need more room than was checked, so that the next snapshot fails (`OverlayCases.CopyOfAnother`).
  `OverlayCopy.CopyTree` gives the items, the slots in use and the outcome of every copy as a fold over the slots in which
  each step copies what a lookup in the store so far finds. For a copy that does not meet its own results it says besides
  exactly when it succeeds and what each image holds, and that a copy whose files are read back succeeds and fits.
- `overlay_set_ext(0)` does not check the store against the smaller layout. Afterwards a snapshot can fail, and one that
  succeeds can be refused by the reader (`OverlayOps.SetExt`, `OverlayCases.DropExtension`; exact conditions in
  `OverlaySnapshot.Snapshot` and `OverlaySnapshot.SaveThenLoad`).
- The reader accepts files whose inner blocks are short. They are read correctly, but a snapshot takes every inner block
  whole: such a file is saved as it is, whatever the unused bytes hold, exactly when every block but the last is full
  (`OverlaySnapshot.SavedWhole`).
- The v4 snapshot does not write header bytes 24 to 31, which the header file describes as zeros; the contract of
  `OverlaySnapshot.Snapshot` says that they keep what the buffer held.
- `job_lba` adds in 32 bits, and the image header only bounds the extension from below. An extension in the last 127
  sectors of the range puts image sectors on top of the first area (`AtaJob.DistinctPlaces`, `AtaJob.WrapCannotHold`); the
  durability theorems assume that it does not wrap.
- `ata_job_done` for a read chunk with too small a data buffer answers STALE, but takes the chunk back from the driver
  (`AtaQueue.Queue.Done`); every other STALE answer changes nothing.
- `ata_fsop_submit` returns the generation as a C int: it is positive, as its header says, exactly while it is below 2^31
  (`AtaFsop.GenerationIsPositive`).
- `p256_mul` loses a carry when its left factor is above the modulus. The hash integer at `kernel/ecdsa_p256.c:151` is passed
  unreduced; the product is right for every inverse if and only if the hash is at most the group order
  (`MaskedProduct.ProductExact`, `P256.HashFactor`, and `P256.HashOfOnes` for a hash of all ones).

## Model

| member | source | states |
|---|---|---|
| `BigIntCore.Normalize` | kernel/bigint.c:3-6 | drops leading zero limbs; the number is unchanged and the limbs above it are zero |
| `BigIntCore.Zero` | kernel/bigint.c:7-12 | length 0 and every limb of the buffer zero |
| `BigIntCore.Copy` | kernel/bigint.c:13-18 | the limbs of the input, padded with zeros over the whole output buffer |
| `BigIntCore.RawCompare` | kernel/bigint.c:96-102 | 1, 0 or -1 exactly as the numbers compare |
| `BigIntCore.SubtractLimbs` | kernel/bigint.c:104-110 | left minus right modulo 2^(32 n), with the borrow that was lost |
| `ModArith.ModShiftAdd` | kernel/bigint.c:114-122 | r becomes (2 r + bit) mod m, normalised, for every r below m |
| `ModArith.ModReduce` | kernel/bigint.c:124-130 | output is input mod modulus, normalised, for every limb count; error code and untouched output otherwise |
| `ModArith.ModAdd` | kernel/bigint.c:132-141 | (left + right) mod m for operands below m, in place or not, shorter operands padded |
| `ModArith.ModAddCtMasked` | kernel/bigint.c:143 | the branch-free form on any operands: one subtraction of the modulus, and the carry lost exactly when that is not enough; in place or not |
| `ModArith.ModAddCt` | kernel/bigint.c:144 | the same without a mask; for operands below the modulus the sum mod m |
| `ModArith.ModSubtractCt` | kernel/bigint.c:145 | the fixed-width difference equals the mathematical difference mod m, in place or not |
| `ModArith.ModMultiplyCt` | kernel/bigint.c:146 | the masked double-and-add product of any operands, which is left * right mod m for every left up to m |
| `MaskedProduct.CtRunReduced` | kernel/bigint.c:146 | with a reduced left factor every round of the product is right |
| `MaskedProduct.CtFailsAt` | kernel/bigint.c:143-146 | a left factor above the modulus times the power of two at which its doubled excess leaves the width is wrong, even modulo m |
| `MaskedProduct.ProductExact` | kernel/bigint.c:143-146 | for a modulus with its top bit set: the product is right for every right factor if and only if the left factor is at most the modulus |
| `ModArith.ModMultiply` | kernel/bigint.c:149-159 | left * right mod m for any operands, normalised; temporary and output buffers stay well formed |
| `Montgomery.MontRound` | kernel/bigint.c:176-183 | one outer round: 2^32 t' = t + a b_i + q m, no 64-bit overflow, t' below a + m, so the top limb is 0 or 1 |
| `Montgomery.SelectReduced` | kernel/bigint.c:185-188 | the masked choice keeps t - m exactly when t >= m |
| `Montgomery.MontMul` | kernel/bigint.c:170-189 | out < m and out * 2^(32 n) is congruent to a b modulo m, for every odd modulus and n up to 128, out aliasing a or b |
| `ModExp.NegatedInverse` | kernel/bigint.c:195-196 | five Newton steps from 1 reach minus the inverse modulo 2^32 for every odd limb |
| `ModExp.EnterForm` | kernel/bigint.c:198-201 | base reduced and doubled 32 n times stands for base * 2^(32 n) mod m |
| `ModExp.LadderLimb` | kernel/bigint.c:202-211 | 32 bits of the exponent: the running power in Montgomery form for the longer exponent prefix |
| `ModExp.ModExpMont` | kernel/bigint.c:190-224 | base^exponent mod m, normalised, on the Montgomery path, output aliasing base or exponent |
| `ModExp.LeaveMont` | kernel/bigint.c:212-223 | the way out of Montgomery form, and 1 (0 for m = 1) for exponent 0 |
| `ModExp.ModExpPlain` | kernel/bigint.c:236-259 | base^exponent mod m on the plain path for any nonzero modulus, but for the corner in DeliversPower |
| `ModExp.Modexp` | kernel/bigint.c:230-260 | both paths give base^exponent mod m normalised (Delivered); exact error codes, and nothing touched on error |
| `ModExp.ModexpU32` | kernel/bigint.c:262-279 | the one-word exponent form delivers the same power from the least significant bit up |
| `ModExp.DeliversPower` | kernel/bigint.c:236-259 | the delivered number is the power mod m if and only if the modulus is not an unnormalised 1 with no product taken |
| `ModExp.PaddedOne` | kernel/bigint.c:236-259 | a call with the modulus [1, 0] and exponent 0 succeeds and delivers 1, where the power is 0 |
| `BigBytes.FromBe` | kernel/bigint.c:24-35 | the number that the bytes spell, normalised, upper limbs zero; exact error codes |
| `BigBytes.ToBe` | kernel/bigint.c:37-45 | the last bytes of the number, big-endian; bytes beyond the number are zero |
| `BigBytes.BeOfBytes` | kernel/bigint.c:24-45 | writing a number below 256^n as n bytes and reading it back is the identity |
| `BigBytes.BytesOfBe` | kernel/bigint.c:24-45 | reading bytes and writing as many again is the identity |
| `Limbs.LimbField` | kernel/bigint.c:32-42 | a bit field of a limb is the same bit field of the whole number |
| `OverlayPaths.NormalForm` | fs/overlay.c:78-93 | byte by byte: a path is an optional ./, slashes, its normal form and, within the 79 bytes kept, slashes again; the normal form neither begins nor ends with one |
| `OverlayPaths.NormalFormUnique` | fs/overlay.c:78-93 | and no other path is like that |
| `OverlayPaths.LeadingSlash` | fs/overlay.c:78-93 | one more leading slash does not matter unless it stands before ./, and a leading ./ is the same as one |
| `OverlayPaths.NormalizeFixed` | fs/overlay.c:78-93 | normalisation leaves a path alone if and only if it is trimmed and does not begin with ./ |
| `OverlayPaths.NormalizeStable` | fs/overlay.c:78-93 | normalising twice equals normalising once if and only if the first result does not begin with ./ |
| `OverlayPaths.UpSpec` | fs/overlay.c:95-109 | the parent is what stands before the slashes in front of the last name; there is none exactly if there is no slash |
| `OverlayPaths.UnderByParents` | fs/overlay.c:132-158 | a path lies under a directory if and only if it is that directory or its parent lies under it |
| `OverlayPaths.MovedCanon` | fs/overlay.c:479-497 | a path moved to another directory stays canonical if and only if that directory is not . |
| `OverlayState.CutFlat` | fs/overlay.c:297-321 | cutting a file into blocks loses nothing |
| `OverlayState.CutCount` | fs/overlay.c:258-260 | however a file is cut, it takes no fewer blocks than full ones |
| `OverlayState.TakenIs` | fs/overlay.c:124-130 | a chain of the first free nodes uses up exactly that many allocations and has its head at the first of them |
| `OverlayState.ReplacedRep` | fs/overlay.c:325-345 | swapping chains in a pool that holds some items gives a pool that holds the others and the new one: no leaked, shared or lost node, whatever the paths |
| `OverlayState.RemovedRep` | fs/overlay.c:36-48 | freeing chains gives the pool of the other items |
| `OverlayState.SameFirst` | fs/overlay.c:111-122 | a lookup sees the same in two pools that hold the same items under its path |
| `OverlayState.AddedItem` | fs/overlay.c:230-251 | one more item: paths stay unique if and only if its path is new, and then the store gains exactly that entry |
| `OverlayState.RemovedItem` | fs/overlay.c:419-433 | one item less: paths stay unique and the store loses exactly that path |
| `OverlayState.AncestorIsDir` | fs/overlay.c:151-158 | in a tree every proper ancestor of an entry is a directory |
| `OverlayOps.Overlay.constructor` | fs/overlay.c:180-190 | the cleared pool holds nothing, is in order, and every node is free |
| `OverlayOps.FreeChain` | fs/overlay.c:36-48 | frees exactly the nodes of the chain, and terminates on it |
| `OverlayOps.Alloc` | fs/overlay.c:124-130 | the first free slot, or -1 if there is none |
| `OverlayOps.Build` | fs/overlay.c:297-321 | succeeds exactly when enough nodes are free; then a chain of the first free nodes holds exactly the data in full blocks, otherwise every node it took is free again |
| `OverlayOps.Find` | fs/overlay.c:111-122 | the first head with the normalised path if and only if the store has it |
| `OverlayOps.IsDir` | fs/overlay.c:192-199 | true exactly for the root and for directories of the store, as found after a second normalisation |
| `OverlayOps.ParentIsDir` | fs/overlay.c:151-158 | true exactly when the parent is the root, a directory of the store or one of the ramdisk |
| `OverlayOps.HasChildren` | fs/overlay.c:132-149 | whether anything in the store lies below the path, the root included |
| `OverlayOps.FreeCount` | fs/overlay.c:288-293 | the number of free nodes |
| `OverlayOps.ChainLen` | fs/overlay.c:273-277 | the length of the chain |
| `OverlayOps.SnapshotBytes` | fs/overlay.c:279-286 | header plus the sum over heads of what the writer will write for them |
| `OverlayOps.SetExt` | fs/overlay.c:26-30 | refuses exactly the areas between 1 and the end of the first one; a store in order stays in order if and only if it fits the chosen layout |
| `OverlayOps.Mkdir` | fs/overlay.c:230-251 | the exact result code; success adds one directory item, takes one node and its bytes, and fits on disk; any refusal changes nothing; unique paths stay unique, and a store in order stays in order, exactly on the paths stated |
| `OverlayOps.StoreFile` | fs/overlay.c:325-345 | succeeds if and only if nodes and bytes suffice once the old chain is gone; replaces the item found or adds one, by building first or freeing first; nodes and bytes are conserved; never loses the old file on a refusal |
| `OverlayOps.StoredUnique` | fs/overlay.c:325-345 | paths stay unique if and only if the path is its own normal form or was not stored, and then one entry is replaced |
| `OverlayOps.Write` | fs/overlay.c:347-361 | the result code case by case; success stores exactly the given bytes under the normal form and conserves nodes and bytes, any refusal changes neither pool nor items; unique paths, the map after it, and order, each with its exact condition |
| `OverlayOps.WrittenIsFound` | fs/overlay.c:347-361 | a written file is found by the next write if and only if its path is stable; no other entry is lost if and only if it is stable or nothing is stored under the second normal form |
| `OverlayOps.FileKeepsTree` | fs/overlay.c:347-361 | on a canonical path the replacement is a plain map update and keeps canonical paths, parents and no hidden ramdisk directory |
| `OverlayOps.ReadAt` | fs/overlay.c:395-413 | byte by byte: the k-th byte read is byte offset + k of the file, as many as asked for and present, however the blocks are cut, and the rest of the buffer is untouched; exact error codes |
| `OverlayOps.ReadThrough` | fs/overlay.c:395-413 | reads one after the other, each from where the last one stopped and of any sizes, give together exactly the file |
| `OverlayOps.Append` | fs/overlay.c:365-393 | the stored file, else as much of the ramdisk file of that name as the limit allows, else nothing, and behind it the new bytes; or a refusal that changes nothing; the result code case by case; the same exact conditions as for write |
| `OverlayOps.Unlink` | fs/overlay.c:419-433 | removes exactly one item, never a directory with something below it; exact result code; its nodes and bytes come back; keeps unique paths and order |
| `OverlayTree.CheckMove` | fs/overlay.c:454-464 | the refusals shared by rename and copy, in order, each by its own condition on names and store |
| `OverlayTree.MovedRep` | fs/overlay.c:479-497 | rewriting the prefix of every path under the old one gives a pool that holds the moved items, whatever they are |
| `OverlayTree.MovedItemsAre` | fs/overlay.c:479-497 | the item itself and those whose path goes on with a slash get the new name in front of what followed the old one; all others and all contents stay |
| `OverlayTree.MovedUnique` | fs/overlay.c:479-497 | unique paths stay unique if and only if no moved path is taken by an entry that stays, and then the store is the moved map |
| `OverlayTree.MovedTree` | fs/overlay.c:442-500 | renaming keeps parent closure if and only if every entry below lies in an overlay directory and the new name is not . |
| `OverlayTree.RenamedTree` | fs/overlay.c:442-500 | for all names that pass the checks: the tree is kept if and only if every moved entry keeps its directory and stays where lookups find it |
| `OverlayTree.MoveLosesParent` | fs/overlay.c:442-500 | a concrete store and ramdisk in which all checks pass and a file ends up without a directory |
| `OverlayTree.ScanGrowth` | fs/overlay.c:466-475 | refuses exactly when some path would not fit; otherwise the growth of the image |
| `OverlayTree.RewritePaths` | fs/overlay.c:479-497 | rewriting in place gives the moved items and never more bytes than the scan allowed |
| `OverlayTree.Rename` | fs/overlay.c:442-500 | the result code case by case; success moves every item under the old name and nothing else, and fits on disk; a refusal changes nothing; unique paths, map and order with their exact conditions |
| `OverlayCopy.CopyEntry` | fs/overlay.c:549-560 | copies what a lookup of the path finds to the first free slot, exactly when it can be read and there are nodes for it; otherwise nothing changes |
| `OverlayCopy.CopyPass` | fs/overlay.c:543-562 | one pass is the fold of its steps over the slots; undisturbed it adds one image of every original item of its kind, never copies an item it has just added, and succeeds exactly when all are read and the nodes suffice |
| `OverlayCopy.ScanCopy` | fs/overlay.c:527-536 | refuses exactly when some path would not fit; otherwise the nodes and bytes of the items as they are stored |
| `OverlayCopy.CostExpected` | fs/overlay.c:527-541 | if every file is read back as it is stored, the copy costs no more nodes and bytes than the scan expects |
| `OverlayCopy.CostExact` | fs/overlay.c:527-541 | and exactly what the scan expects if all blocks are full besides |
| `OverlayCopy.CopiedUnique` | fs/overlay.c:543-562 | unique paths stay unique if and only if no image lands on a stored path; then, with every file read back, the store gains exactly the images |
| `OverlayCopy.CopiedTree` | fs/overlay.c:502-566 | copying keeps parent closure under exactly the same condition as renaming |
| `OverlayCopy.CopyKeepsTree` | fs/overlay.c:502-566 | for all names that pass the checks: the same exact condition as for rename |
| `OverlayCopy.ProperCopies` | fs/overlay.c:502-566 | in a store in order nothing disturbs a copy and every file is read back |
| `OverlayCopy.CopyTree` | fs/overlay.c:502-566 | the checks refuse without a change; after them items, slots in use and outcome are those of the step-by-step fold, for every copy; every item stays and all that is added lies under the new name; undisturbed it succeeds exactly when all files are read and the nodes suffice, with one image of each item, and otherwise leaves all directories and some files; with files read back it always succeeds and fits; unique paths, map and order with their exact conditions |
| `OverlayImage.RecordLayout` | fs/overlay.c:726-738 | byte by byte: kind, path length, data length and size with the low byte first, path, data |
| `OverlayImage.WordIs` | fs/overlay.c:632-637 | the reader takes four bytes as a number with the low byte first |
| `OverlayImage.RecordRoundTrip` | fs/overlay.c:726-738 | a record written is the record read, for every kind, path and data |
| `OverlayImage.ParseSerialised` | fs/overlay.c:782-832 | parsing a serialised record sequence yields those records if the reader's rules admit them, and nothing otherwise |
| `OverlayImage.ParseExact` | fs/overlay.c:782-832 | whatever is parsed stands there: the bytes read are those of the records found, and the rules admit them |
| `OverlayListing.ItemOnDisk` | fs/overlay.c:744-766 | kind 1 for a directory, kind 0 for the head of a file with its size and first block, kind 2 for every further block |
| `OverlayListing.ListBytes` | fs/overlay.c:262-271 | the records of a list in full blocks take exactly the bytes of the size formula |
| `OverlayListing.ListRead` | fs/overlay.c:782-832 | a reader takes a list, however its files are cut, if and only if every file is within its limit |
| `OverlayListing.Grouped` | fs/overlay.c:782-832 | whatever a reader accepts is the records of a list of items |
| `OverlayListing.ListRecsInjective` | fs/overlay.c:726-738 | two lists with the same records are the same list |
| `OverlayLoading.InOrderStore` | fs/overlay.c:111-122 | lookups see the map in which the first item of a path in slot order counts |
| `OverlayLoading.InOrderUnique` | fs/overlay.c:111-122 | paths are unique if and only if the list in slot order has no repeats |
| `OverlayLoading.LoadedRep` | fs/overlay.c:810-822 | a pool filled record by record from a list holds exactly its items |
| `OverlayLoading.LayoutInOrder` | fs/overlay.c:810-822 | and holds them in the order of the list |
| `OverlaySnapshot.SavedWhole` | fs/overlay.c:753-766 | every pool that holds a file in these blocks is saved with the right contents if and only if every block but the last is full |
| `OverlaySnapshot.SavedIs` | fs/overlay.c:744-766 | what the slots contribute to a snapshot: full blocks, the bytes of the size formula, and no more records than nodes |
| `OverlaySnapshot.SavedCount` | fs/overlay.c:744-766 | a snapshot never has more records than the pool has nodes |
| `OverlaySnapshot.PutRec` | fs/overlay.c:726-738 | the record's bytes at the offset, and nothing else |
| `OverlaySnapshot.PutFile` | fs/overlay.c:753-766 | the records of one file, walked along its chain |
| `OverlaySnapshot.WriteBody` | fs/overlay.c:744-766 | the final offset is the size formula, and the bytes are the records of the list |
| `OverlaySnapshot.Snapshot` | fs/overlay.c:740-778 | refuses if and only if the buffer is too small or the items do not fit; otherwise the buffer is the image of the list, padded with zeros, the header given byte by byte |
| `OverlaySnapshot.RestorePass` | fs/overlay.c:789-829 | a pass succeeds exactly on images that parse; the applying pass fills the pool with exactly the parsed records |
| `OverlaySnapshot.RestoreV3` | fs/overlay.c:782-832 | the pool holds exactly the accepted records, or has not been touched: the second pass cannot fail |
| `OverlaySnapshot.Restore` | fs/overlay.c:849-864 | exactly which v3 and v4 images are accepted; any accepted one gives a sound pool that holds its items in order; a rejected one changes nothing |
| `OverlaySnapshot.ImageAccepted` | fs/overlay.c:834-864 | an image is accepted if and only if the reader's rules admit its records, and yields exactly those |
| `OverlaySnapshot.ListingReadable` | fs/overlay.c:740-832 | a snapshot can be read back if and only if no file is over the limit of its layout |
| `OverlaySnapshot.SaveThenLoad` | fs/overlay.c:740-864 | snapshot then restore, v3 and v4: saved if and only if it fits, loaded if and only if no file is over the limit; the list comes back item for item, repeated paths included; a store in order comes back in order |
| `OverlayRuns.Step` | fs/overlay.c:230-566 | every call keeps the pool sound and is refused, with its own code and nothing changed, or leaves exactly the items it should, or finds too little room; a store in order stays so if and only if the call is refused or harmless; what fits goes on fitting |
| `OverlayRuns.Run` | fs/overlay.c:230-864 | after any sequence of calls, on any arguments and any images, the pool is sound, and every call of it was answered lawfully |
| `OverlayRuns.StaysOrderly` | fs/overlay.c:230-566 | a store in order stays in order and fits on disk through every run whose effective calls are harmless where they are made |
| `OverlayRuns.LostOrder` | fs/overlay.c:230-566 | where order is lost, a harmful call was made or an image loaded |
| `OverlayRuns.StaysFitted` | fs/overlay.c:230-566 | what fits on disk goes on fitting, in a tree or not, through every run of mkdir, write, append, unlink, rename and of copies that read their files back |
| `OverlayCases.WriteTwice` | fs/overlay.c:325-361 | from an empty store: mkdir . and writing ././a twice are all accepted and leave two items with one path |
| `OverlayCases.WriteToUnstablePath` | fs/overlay.c:347-361 | from an empty store: writing a and then ././a are accepted and lose the file a |
| `OverlayCases.HalfACopy` | fs/overlay.c:543-562 | from an empty store: a copy of . that passes its checks gives up for want of space with its directory left behind |
| `OverlayCases.ReadsAnother` | fs/overlay.c:543-562 | the copy of `./a` takes the contents of `a`, and costs more than the checks have found exactly when that file takes more bytes |
| `OverlayCases.CopyOfAnother` | fs/overlay.c:502-566 | accepted calls after which a copy holds another file's contents, the store no longer fits and the snapshot fails |
| `OverlayCases.RenameOntoLost` | fs/overlay.c:442-500 | from an empty store: two accepted renames after which two files have one path |
| `OverlayCases.DropExtension` | fs/overlay.c:26-30 | from an empty store: after dropping the area, exactly when a snapshot fails, and that one that succeeds cannot be loaded |
| `AtaJob.ChunkContiguous` | kernel/ata_job.c:203-208 | the sectors of a chunk are consecutive on disk, so a chunk never crosses the area boundary |
| `AtaJob.DistinctPlaces` | kernel/ata_job.c:23-25 | image sectors have distinct places if and only if the extension does not wrap |
| `AtaJob.WrapCannotHold` | kernel/ata_job.c:23-25 | if it wraps, no disk holds the image unless two sectors happen to agree |
| `AtaJob.FlushDurable` | kernel/ata_job.c:306-314 | however a flush's transfers interleave with writes elsewhere, the disk ends up holding the snapshot |
| `AtaJob.LoadRebuilds` | kernel/ata_job.c:301-320 | a full load from a disk that holds an image rebuilds it and finds the same geometry |
| `AtaJob.FlushThenLoad` | kernel/ata_job.c:249-320 | flush, other traffic, load: the same image and geometry |
| `AtaQueue.SpentForever` | kernel/ata_job.c:210-263 | a job once reported, cancelled or lost never looks like one handed out later |
| `AtaQueue.SpentIsNotLive` | kernel/ata_job.c:269-292 | so its late report does not match |
| `AtaQueue.Queue.constructor` | kernel/ata_job.c:51-70 | the initial state satisfies every invariant |
| `AtaQueue.Queue.RequestFlush` | kernel/ata_job.c:102-107 | one more change owed to the disk; a load under way is invalidated |
| `AtaQueue.Queue.RequestLoad` | kernel/ata_job.c:109-112 | ignored while a change waits |
| `AtaQueue.Queue.Pending` | kernel/ata_job.c:114-117 | exactly when something is owed, loading, under way or handed out; when nothing is pending every change is on disk and the driver holds nothing |
| `AtaQueue.Queue.IoSubmit` | kernel/ata_job.c:119-138 | one sector job at a time, with a new generation; exact refusals |
| `AtaQueue.Queue.IoTake` | kernel/ata_job.c:144-156 | hands over what the driver delivered, once |
| `AtaQueue.Queue.IoCancel` | kernel/ata_job.c:158-164 | the job is spent; its late report will be stale |
| `AtaQueue.Queue.Fetch` | kernel/ata_job.c:210-263 | sector jobs go first but never under a chunk; asking again gives the same job; a chunk names its sectors and a write chunk carries its part of the snapshot; a flush goes before a load; no change is forgotten on any path |
| `AtaQueue.Queue.DoneIo` | kernel/ata_job.c:269-287 | exact outcome and new state of a sector job's report |
| `AtaQueue.Queue.DoneChunk` | kernel/ata_job.c:293-320 | exact outcome and new state of a chunk that went well |
| `AtaQueue.AdvancedIs` | kernel/ata_job.c:293-320 | a chunk that went well: the cursor moves by its sectors, a read chunk puts exactly its bytes in its place, the end of the first area gives the geometry, and the last chunk ends the transfer with its outcome |
| `AtaQueue.IoReportIs` | kernel/ata_job.c:269-287 | what the report of a sector job makes of the queue, its counts included |
| `AtaQueue.FailedIs` | kernel/ata_job.c:293-300 | a failed chunk ends the transfer, and a flush is owed again |
| `AtaQueue.TallyIs` | kernel/ata_job.c:310-320 | only completed transfers are counted, each by its outcome |
| `AtaQueue.AdvanceKeeps` | kernel/ata_job.c:301-314 | the sectors moved so far are a prefix of the buffer in order; after the last chunk they are all of it |
| `AtaQueue.Queue.Done` | kernel/ata_job.c:265-321 | only the held job's report counts; spent jobs are stale; FLUSH_DONE means every sector of the snapshot went to its place; restore is called only if nothing changed since the load started; failed flushes stay owed |
| `AtaQueue.Queue.DriverGone` | kernel/ata_job.c:323-337 | returns 1 if and only if a change is not on disk yet, and leaves the queue idle |
| `AtaSystem.System.constructor` | kernel/ata_job.c:51-70 | a fresh queue over any disk satisfies the system's invariant |
| `AtaSystem.System.Change` | kernel/ata_job.c:102-107 | a change unsettles the disk |
| `AtaSystem.System.Fetch` | kernel/ata_job.c:210-263 | asking for a job keeps the invariant, whether it starts, resumes or repeats one |
| `AtaSystem.System.Write` | kernel/ata_job.c:249-254 | the driver's write of its chunk leaves the chunks already reported on disk |
| `AtaSystem.System.Elsewhere` | kernel/ata_job.c:213-229 | sector jobs and other writers that keep off the image disturb neither a flush, nor a load, nor a settled disk |
| `AtaSystem.System.Report` | kernel/ata_job.c:265-321 | FLUSH_DONE settles the disk unless a newer change waits; a load that hands its buffer to restore hands over exactly the image last flushed |
| `AtaSystem.System.DriverDies` | kernel/ata_job.c:323-337 | at the driver's death either the last change is on disk or the kernel is told to flush |
| `AtaSystem.System.Quiet` | kernel/ata_job.c:114-117 | whenever nothing is pending and no flush is owed, the disk holds an image taken after the last change |
| `AtaSystem.SnapshotComesBack` | kernel/ata_job.c:14-23 | queue and overlay read the same geometry from a header: a snapshot that was flushed and loaded into any buffer is read by the overlay's own reader as the records that were written, for the same extension |
| `LineEdit.History.Get` | kernel/line_edit.c:21-25 | the ring gives the line entered so many lines ago, for the last sixteen |
| `LineEdit.History.Add` | kernel/line_edit.c:27-33 | appends to the list of all lines, but not empty lines or repetitions |
| `LineEdit.RepaintShows` | kernel/line_edit.c:51-59 | painting the changed tail and blanks over what stuck out shows the new line |
| `LineEdit.Editor.constructor` | kernel/line_edit.c:35-47 | the empty line, shown at the cursor |
| `LineEdit.Editor.Redraw` | kernel/line_edit.c:51-59 | from a screen showing the old line to one showing the new, nothing left of the line touched |
| `LineEdit.Editor.ReplaceAll` | kernel/line_edit.c:61-69 | the line is the text as far as it fits, cursor at its end, shown |
| `LineEdit.Editor.Insert` | kernel/line_edit.c:71-86 | what fits goes in at the cursor by shifting in place; shown |
| `LineEdit.Editor.Delete` | kernel/line_edit.c:88-95 | exactly one character less; shown |
| `LineEdit.Editor.FindCandidates` | kernel/line_edit.c:98-114 | the number of candidates, the first, and the length of their longest common prefix |
| `LineEdit.TabLaw` | kernel/line_edit.c:97-146 | on the words themselves: nothing happens behind a blank or where no word begins with what is typed; else what is filled in is common to all that do, and no further character is; a blank follows the only such word |
| `LineEdit.AmbiguousLaw` | kernel/line_edit.c:97-123 | a list is due if and only if two words begin with what is typed and no character goes on in all that do |
| `LineEdit.ListedLaw` | kernel/line_edit.c:124-139 | apart from the line breaks the list is every candidate in order with two blanks behind it |
| `LineEdit.ListedColumn` | kernel/line_edit.c:124-139 | no line of it but one with a single word goes beyond column 78 |
| `LineEdit.Editor.Complete` | kernel/line_edit.c:97-146 | Tab fills in exactly the longest common prefix (and a blank after a sole candidate); the second Tab on an ambiguous word prints exactly the candidates, wrapped at column 78, then prompt and line again |
| `LineEdit.Editor.Enter` | kernel/line_edit.c:151-157 | the whole line is shown with the cursor behind it and joins the history |
| `LineEdit.PressedLine` | kernel/line_edit.c:148-197 | what each editing key does to the characters of the line and to the cursor |
| `LineEdit.PressedHistory` | kernel/line_edit.c:177-189 | Up and Down move one entered line back or forward among the last sixteen, cut to the buffer, with the live line kept aside |
| `LineEdit.Editor.Key` | kernel/line_edit.c:148-197 | every key does to line, cursor and history position what the abstract editor does; for the editing keys on the characters of the line themselves; and the screen goes on showing the line |
| `LineEdit.Feed` | kernel/line_edit.c:148-197 | after any sequence of keys line, cursor and history position are the fold of the single keys, and short of Enter the cells from the line origin are that line then blanks, with the cursor on it |
| `LineEdit.TypeAndErase` | kernel/line_edit.c:158-195 | a character that fits, typed and erased again, leaves line and cursor as they were |
| `LineEdit.LeftAndDelete` | kernel/line_edit.c:158-168 | Left and then Del leave the same line and cursor as Backspace |
| `LineEdit.BrowseAndReturn` | kernel/line_edit.c:177-189 | as many Downs as Ups bring back the live line |
| `Utf8.PassesIsEncoded` | include/os_charset.h:103-123 | what meets the decoder's conditions is the encoding of the value read |
| `Utf8.EncodedPasses` | include/os_charset.h:103-123 | every encoding of more than one byte meets them, with its own value |
| `Utf8.MultiUnique` | include/os_charset.h:103-123 | no place holds encodings of two values |
| `Utf8.NextMulti` | include/os_charset.h:103-132 | more than one byte is taken if and only if a well-formed sequence stands there |
| `Utf8.Utf8Next` | include/os_charset.h:103-123 | the decoder takes a well-formed sequence whole with its value and any other byte as itself; it always makes progress |
| `Charset.CpPage` | include/os_charset.h:160-171 | binary search: the page and byte that mean the code point, or -1 if and only if no page has it |
| `Charset.ExactInverts` | include/os_charset.h:65-72 | the Windows-1252 byte of a code point means that code point, and is no selector |
| `Charset.HighExact` | include/os_charset.h:65-72 | every code point of the Windows-1252 table has a byte |
| `Charset.Unknown` | include/os_charset.h:77-191 | a code point that no page shows and that has no likeness shows as exactly one question mark |
| `Charset.Likeness` | include/os_charset.h:77-191 | control codes and what has no width are dropped; dashes, primes, blanks, arrows and accented letters show as their ASCII likeness |
| `Charset.SingleByte` | include/os_charset.h:241-273 | a byte that begins no sequence: text as it is, control codes dropped, selectors followed, any other byte on the page of the input |
| `Charset.DisplayPut` | include/os_charset.h:178-191 | selector only when the page changes; all bytes or none |
| `Charset.TextToDisplay` | include/os_charset.h:241-273 | a terminated prefix of the display form in whole steps, all of it when it fits |
| `Charset.InPlace` | include/os_charset.h:277-309 | the write index never passes the read index: the result is a function of the text that was there and not longer |
| `Charset.InPlaceAgrees` | include/os_charset.h:277-309 | in place and out of place agree if and only if every selector to be added finds a saved byte |
| `CharsetRoundTrip.ByteMeans` | include/os_charset.h:339-368 | a byte means the code point it shows, and a question mark if it shows none |
| `CharsetRoundTrip.ByteToUtf8` | include/os_charset.h:339-368 | a whole character or nothing |
| `CharsetRoundTrip.StrToUtf8` | include/os_charset.h:372-384 | a terminated prefix cut behind a whole character, all of it when it fits |
| `CharsetRoundTrip.ShownOfUtf8` | include/os_charset.h:241-273 | UTF-8 text converts to the display form of its code points, which is never longer |
| `CharsetRoundTrip.BackOfDisplayed` | include/os_charset.h:372-384 | the display form of representable code points converts back to their UTF-8 text |
| `CharsetRoundTrip.RoundTrip` | include/os_charset.h:241-384 | UTF-8 to display and back is the identity on all representable text, by either converter |
| `CharsetRoundTrip.ThereAndBack` | include/os_charset.h:241-384 | the same through the buffers: room for the text and a terminator is enough |
| `P256Field.IsZero` | kernel/ecdsa_p256.c:21 | true exactly for zero |
| `P256Field.FieldAdd` | kernel/ecdsa_p256.c:32 | sum mod m on eight limbs, in place or not |
| `P256Field.FieldSub` | kernel/ecdsa_p256.c:33 | difference mod m on eight limbs, in place or not |
| `P256Field.FieldMul` | kernel/ecdsa_p256.c:34-47 | the masked product of any operands on eight limbs, in place or not; the product mod m for every left factor up to m |
| `P256Field.FieldReduce` | kernel/ecdsa_p256.c:51-61 | remainder on eight limbs, in place or not |
| `CurveIdentities.DoubleIdentity` | kernel/ecdsa_p256.c:68-79 | the polynomial identity behind doubling |
| `P256Curve.DoubleReps` | kernel/ecdsa_p256.c:72-77 | the code's sequence of field operations computes the textbook polynomials |
| `P256Curve.DoubleOnCurve` | kernel/ecdsa_p256.c:68-79 | doubling maps the curve to itself, infinity included, for every modulus and coefficient |
| `P256Curve.ChordReps` | kernel/ecdsa_p256.c:89-92 | the addition's sequence of field operations computes the chord polynomials |
| `P256Curve.AddReps` | kernel/ecdsa_p256.c:81-94 | the sum on the coordinates themselves: opposite points give infinity, equal ones the double, and otherwise the negative of the sum is the third point on the line through both |
| `P256Curve.AddOnCurve` | kernel/ecdsa_p256.c:81-94 | addition maps the curve to itself in all of its cases |
| `P256Point.PointDouble` | kernel/ecdsa_p256.c:68-79 | the limb code with its temporaries reused in place computes the value-level doubling, the output point aliasing the input or not |
| `P256Point.AddPoints` | kernel/ecdsa_p256.c:81-94 | the limb code computes the sum, given on the coordinates in every case, the output point aliasing either input or not |
| `P256Curve.TimesOnCurve` | kernel/ecdsa_p256.c:96-101 | every multiple of a point of the curve is on the curve |
| `P256Curve.TimesStep` | kernel/ecdsa_p256.c:99 | one bit of the loop is one step of the recursive multiple |
| `P256Curve.TimesIsMultiple` | kernel/ecdsa_p256.c:96-101 | wherever points stand for the elements of a monoid, k times a point stands for the k-fold element |
| `P256Point.ScalarMul` | kernel/ecdsa_p256.c:96-101 | double-and-add over the 256 bits of the scalar, on limbs, gives the recursive multiple, on the curve for every scalar |
| `P256Curve.ValidatesCurve` | kernel/ecdsa_p256.c:111-117 | a public key is accepted if and only if its coordinates are reduced and on the curve |
| `P256Point.ValidateKey` | kernel/ecdsa_p256.c:111-117 | the same on limbs |
| `P256.Constants` | kernel/ecdsa_p256.c:10-14 | the limb tables spell the standard's prime, order, coefficient and base point |
| `P256.HashFactor` | kernel/ecdsa_p256.c:151 | whatever the hash, its product is right for every inverse below the order if and only if the hash is at most the order |
| `P256.HashOfOnes` | kernel/ecdsa_p256.c:151 | a hash of all ones times 2 is wrong modulo the order |
| `P256.BaseOnCurve` | kernel/ecdsa_p256.c:12-14 | the base point is on the curve |
| `P256.CanonicalIsContent` | kernel/ecdsa_p256.c:123-125 | the contents octets that the standard allows are exactly those the printer writes |
| `P256.ParseInteger` | kernel/ecdsa_p256.c:119-130 | reads a canonical INTEGER of up to 256 bits, and refuses, with its reason, if and only if none is there |
| `P256.EncodesUnique` | kernel/ecdsa_p256.c:132-141 | a byte string encodes at most one pair |
| `P256.ParseSignature` | kernel/ecdsa_p256.c:132-141 | accepts exactly the canonical encodings of pairs between 1 and the order, and returns the pair |
| `AiRelay.Run` | kernel/ai_relay.c:45-282 | through any sequence of calls the slot is taken, finished, failed and freed by exactly the calls that may do so; at the end forwarded is completed plus aborted plus cancelled plus dropped plus in flight, and every abort has one reason |
| `AiRelay.Relay.constructor` | kernel/ai_relay.c:33-38 | the books of the empty slot balance |
| `AiRelay.Relay.Begin` | kernel/ai_relay.c:45-71 | takes the free slot with a new id and the cut prompt, or changes nothing; the books stay balanced |
| `AiRelay.Relay.BeginStep` | kernel/ai_relay.c:73-99 | the same for a sampling step |
| `AiRelay.Relay.BeginSession` | kernel/ai_relay.c:101-145 | the same for a session operation |
| `AiRelay.Relay.Cancel` | kernel/ai_relay.c:149-157 | undoes the forward count of its family; the guards against zero never matter |
| `AiRelay.Relay.Fetch` | kernel/ai_relay.c:159-169 | the job, to its worker only; the slot is unchanged |
| `AiRelay.Relay.Complete` | kernel/ai_relay.c:171-210 | stores the reply of the job in flight if its worker sent it and it has the shape the job asks for; a report for a job that has left changes only a refusal count |
| `AiRelay.Relay.Heartbeat` | kernel/ai_relay.c:212-227 | after a beat the job is due to fail exactly when its worker is gone, has been silent for longer than the stall window or is over the deadline; refusals change nothing |
| `AiRelay.Relay.Fail` | kernel/ai_relay.c:229-241 | the job ends once, counted by its reason; aborted is stalls plus timeouts plus lost |
| `AiRelay.Relay.NoteCancelled` | kernel/ai_relay.c:245 | a cancellation outside the slot is kept apart in the books |
| `AiRelay.Relay.Take` | kernel/ai_relay.c:259-274 | the caller gets exactly the stored reply, once |
| `AiRelay.Relay.DropCaller` | kernel/ai_relay.c:276-282 | a job with the worker counts as lost, a stored reply as dropped |
| `AtaFsop.Run` | kernel/ata_fsop.c:75-195 | through any sequence of calls the slot moves on exactly the calls that may move it; at the end submissions are ops plus aborts plus in flight, and the facts of an aborted operation stay until the next submit |
| `AtaFsop.Relay.constructor` | kernel/ata_fsop.c:35-51 | the accounts of the empty slot |
| `AtaFsop.Relay.Submit` | kernel/ata_fsop.c:75-93 | one operation at a time; facts cleared; submissions are ops plus aborts plus in flight |
| `AtaFsop.Relay.Fetch` | kernel/ata_fsop.c:103-113 | to its driver, once |
| `AtaFsop.Relay.CopyRequest` | kernel/ata_fsop.c:115-120 | the request, to the live driver only |
| `AtaFsop.Relay.Note` | kernel/ata_fsop.c:122-132 | commits only the live operation; a note for one that has left is stale and changes nothing |
| `AtaFsop.Relay.Publish` | kernel/ata_fsop.c:134-148 | the image becomes the mirror only for the live operation |
| `AtaFsop.Relay.Finish` | kernel/ata_fsop.c:150-165 | accepts exactly well-formed answers of the live operation, with no more output than asked for |
| `AtaFsop.Relay.Take` | kernel/ata_fsop.c:167-177 | the stored answer and output in full, or neither is touched; a finished slot is free either way |
| `AtaFsop.Relay.AbortOp` | kernel/ata_fsop.c:179-183 | what was committed or published is fixed until the next submit |
| `AtaFsop.Relay.Release` | kernel/ata_fsop.c:193-195 | frees an ended slot only |

## Left out

- Null-pointer arguments of the C functions, except where a null buffer is a case of the protocol (job queue, relays).
- ModExp.Modexp: moduli of 16384 limbs and more, where the 16-bit workspace arithmetic wraps; the four workspace buffers are
  allocated instead of carved out of the caller's, so the contents of the caller's workspace are not modelled.
- ModExp.ModexpU32: the same two restrictions.
- `bigint_compare`, `bigint_add`, `bigint_subtract`, `bigint_multiply`: easier members of the same kind.
- Timing: the branch-free forms are modelled for their results only.
- P256Point.ScalarMul: the recursive multiple is the k-fold element wherever doubling and addition stand for the operation of a
  monoid (`P256Curve.TimesIsMultiple`); that they do on this curve is the group law, which is not proved.
- Affine conversion and the end-to-end ECDSA verdict: they need primality and the group law.
- C strings and path buffers of the overlay are sequences without a terminator; the input buffer of a write is a value.
- Fixed-slot images (v1 and v2): `OverlaySnapshot.Restore` reports that they go to their own reader and changes nothing.
- OverlayRuns.StaysOrderly: loading an image counts as harmful unless it is refused; `OverlaySnapshot.SaveThenLoad` says
  when what is loaded is in order.
- OverlayOps.Append: data within 64 KiB of 4 GiB, for which the 32-bit sum of sizes would wrap; no buffer of the kernel can
  hold that much.
- `overlay_listdir`, `overlay_stat`, the disk hooks: listing and input/output.
- Generations of the job queue and all statistics counters are unbounded; wrap-around of the relays' ids and generations and
  of the tick counter is modelled.
- AtaJob.FlushDurable, AtaSystem.System.Report: other writers keep off the image's sectors and the driver reports success
  only for what it did.
- Claims of the controller, fences and status structures of `kernel/ata_job.c`: easy members.
- The terminal is one unbounded strip of cells; line wrapping, scrolling and control characters other than newline are not
  modelled, and the completion words are taken to be printable.
- `line_edit_history_reset` during browsing.
- The generated page tables of the character set are parameters constrained by `Charset.PagesOk`; glyph tables, the
  code page 437 mapping and the byte-at-a-time stream decoder are not part of this model.
- Texts, tokens and traces recorded for statistics by `kernel/ai_relay.c`, and the store flags and mirror setters of
  `kernel/ata_fsop.c`.

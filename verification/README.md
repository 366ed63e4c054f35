# Verified model of the HDF5 handler's array, cache and naming logic

The handler serves HDF5 files over the DAP protocols. This project models the
parts of it where fast, stateful C++ code has to agree with a simple
definition, and proves that it does, or exactly when it does.

| part | modules | main results |
|---|---|---|
| hyperslabs | `Grid`, `Hyperslab`, `Enumerate` | `INDEX_nD_TO_1D` is a bijection that keeps the lexicographic order; the recursive `subset` and the odometer `obtain_next_pos` both produce `Select`, the j-th selected element at start + stride * digits of j |
| disk cache | `Cells`, `DiskProtocol`, `DiskCache`, `CFArray`, `SharedCache` | in every interleaving of requests under both protocols every hit is the requester's complete image if and only if the variable is not a signed char, and always within one protocol; every call of a reader or writer is a step of that protocol; the window trick and its contiguity shortcut give the direct selection |
| memory cache | `MemCache`, `MissLL` | over any run with evictions and under any protocols every answer is the direct one, for datasets and for generated coordinates; for each failing case, a variable or coordinate is served transparently by all runs if and only if it is not one |
| compound decoder | `CompoundLayout`, `CompoundReader` | decoding inverts the layout for every nested compound and array type that the reader supports, each array projected through its own hyperslab; what it supports is stated exactly |
| DAS cache file | `DasCodec` | the encoding is self-delimiting, its buffers exactly sized, and saving and loading rebuilds the tree |
| names and paths | `Names`, `FakeDims`, `Paths`, `DimScope`, `CoordPath`, `Angles` | distinct names with first holders kept; fake dimension tables that never throw; dimension scope; when "../" reduction is right; the error of packed degrees |

`Arith` defines multiplication and division by recursion, so that the proofs
about indices stay linear for the solver; `TimesIs` ties it to `*`. `Common`
holds shared types.

Conventions: integers are mathematical. Exceptions are `Err`, `None` or `false`
results. A library call whose outcome the program cannot control (a lock, a
seek, a short read, a failed removal) is a parameter or an arbitrary choice.
Ghost parameters only name what a proof talks about.
Paths are taken apart into directories and a last name;
`CoordPath.EveryPathSplits` shows that this covers every string.

Where the code departs from what its documentation or callers expect, the code
is modelled and the exact condition is proved:

- A cached variable is answered directly if and only if it is not a signed char
  asked for under DAP2 (`MemCache.HitTransparentIff`; over runs under any
  protocols `MemCache.TransparentIff`), because `val` is sent in place of
  `newval` at HDF5BaseArray.cc:216.
- A miss answered by the disk cache leaves an unfilled entry in the memory
  cache, right only for a variable of zero bytes
  (`MemCache.UnfilledEntryTransparentIff`; over runs
  `MemCache.TransparentWithDiskCacheIff`; HDF5CFArray.cc:270-271).
- The name of a cache file is built without the protocol
  (HDF5CFUtil.cc:1202-1221), but a signed char is written, and expected, as
  other bytes under DAP4 than under DAP2. A DAP4 request writes twice the size of
  its image (`CFArray.PayloadIsImage`; HDF5CFArray.cc:427, 1372-1384). That is
  the size a DAP2 request expects (HDF5CFArray.cc:234-237), which is then
  answered with the wrong bytes: of the characters 5 and 6 the second one becomes
  0 (`SharedCache.SixBecomesZero`; for every signed char
  `SharedCache.WrongHitUnderDap2`). Every hit of every run is right if and only
  if the variable is not a signed char (`SharedCache.EveryHitRightIff`); within
  one protocol every hit is right for every variable
  (`DiskProtocol.OneProtocolHitsAreComplete`).
- A DAP4 request for a signed char has no hit as long as no process dies
  (`SharedCache.CharNeverHitUnderDap4`). A DAP2 write that dies half-way leaves
  the size it expects (`SharedCache.CutWriteHitsUnderDap4`).
- A process that dies while writing leaves an unlocked, incomplete file
  (`DiskProtocol.WriterLeaves`). Where the protocols agree, the size check
  protects readers from it (`DiskProtocol.FullSizeIsComplete`).
- A generated coordinate takes its number of points from attributes, not from
  its dimension. Behind the memory cache it is served like a direct read if and
  only if the two are equal or every request is refused
  (`MissLL.GridTransparentIff`): with fewer points the cache answers zeros, and
  requests that a direct read refuses; with more points the first
  request that is not refused copies the grid beyond its buffer
  (`MissLL.NeverExceedsIff`; HDF5GMCFMissLLArray.cc:198-204).
- An array inside a compound is read as a whole for all numbers but signed
  chars, but in part only for integers of 2 and 4 bytes, unsigned bytes, signed
  bytes under DAP2, and floats of 4 and 8 bytes
  (`CompoundReader.AtomsReadable`, `CompoundReader.Subsettable`). A constrained
  array of 64-bit integers, which DAP4 can name, is refused
  (`CompoundReader.ConstrainedInt64Refused`; HDF5Array.cc:1553-1556), and an
  array of signed chars is never read under DAP4.
- A DAS with an attribute at its top level can be written but not read back
  (`DasCodec.SaveAndLoad`).
- The clash branches of the fake-dimension routines always throw
  (`FakeDims.DimensionTable.AddOneFakeDimName`,
  `FakeDims.DimensionTable.AdjustDuplicateFakeDimName`), because the generated
  name is entered twice.
- A dimension of a directory below the group is never found, so each lookup
  adds another dimension of that name (`DimScope.BelowAlwaysAdds`).
- A "../" that follows a name is counted as a step up from the variable's
  directory (`CoordPath.InteriorStepMiscounted`); the reduction is right if and
  only if all steps come first and stay below the root
  (`CoordPath.ReducedRightIff`).

## Model

| member | source | states |
|---|---|---|
| `Grid.IndexNDTo1D` | HDF5BaseArray.cc:429-449 | fails exactly on different ranks; otherwise the row-major index of the position |
| `Grid.LinearOrder` | HDF5Array.cc:1654-1675 | the index is strictly monotone in lexicographic order and injective on in-range positions |
| `Grid.LinearUnrank` | HDF5CFUtil.cc:1222-1242 | every in-range position has an index below the product of the sizes, and its row-major digits are the position again |
| `Grid.UnrankLinear` | HDF5BaseArray.cc:429-449 | every index below the product of the sizes is the index of its digits, so the index is onto |
| `Grid.UnrankOrder` | HDF5Array.cc:1716-1725 | counting up runs through the positions in lexicographic order |
| `Grid.HornerIsLinear` | HDF5Array.cc:1663-1674 | the sum of products equals the Horner form of the index |
| `Grid.LinearAdd` | HDF5CFArray.cc:246-256 | the index of a sum of positions is the sum of the indices |
| `Grid.RowMajor` | HDF5BaseArray.cc:429-449 | as arithmetic: one more, faster dimension of size c multiplies the number of elements by c and makes the index of a position index * c + x |
| `Hyperslab.FormatConstraint` | HDF5BaseArray.cc:73-112 | refuses exactly when some start exceeds its stop, at the first such dimension and with the vectors filled up to it; else start, stride, the maximal number of steps up to stop, and their product |
| `Hyperslab.FormatConstraintUnlessEmpty` | HDF5Array.cc:68-112 | an array without elements returns 0 and touches nothing; any other is treated in every respect as by `FormatConstraint` |
| `Hyperslab.SlabUnique` | HDF5BaseArray.cc:83-98 | a constraint determines offset, step and count |
| `Hyperslab.SlabOfIs` | HDF5BaseArray.cc:83-98 | a constraint is legal exactly if no start exceeds its stop, and stands for the starts, the strides and (stop - start) / stride + 1 elements along each dimension |
| `Hyperslab.FitsIs` | HDF5BaseArray.cc:95-98 | a selection is inside the array exactly if start + (count - 1) * step is along each dimension |
| `Hyperslab.SelectAt` | HDF5BaseArray.cc:401-427 | the element that is k[i] steps along each dimension i is the array's element at start + k[i] * step, for every such k |
| `Hyperslab.LegalFits` | HDF5BaseArray.cc:95-98 | every selected position of a legal constraint is inside the array, and no count exceeds its dimension |
| `Hyperslab.CountsFitArray` | HDF5Array.cc:95-98 | the total, and every partial product on the way to it, is at most the number of elements of the array |
| `Hyperslab.SelectedIncreasing` | HDF5CFArray.cc:911-917 | selected indices increase strictly |
| `Hyperslab.SelectedEnds` | HDF5CFArray.cc:242-251 | the first selected position is the offset, the last one offset + (count - 1) * step |
| `Hyperslab.ContiguousIffCountsMatch` | HDF5CFArray.cc:911-917 | as many elements are selected as the window holds if and only if the selection is the window in order; never more are |
| `Hyperslab.FullCountIsWholeArray` | HDF5CFArray.cc:1358-1376 | a selection with as many elements as the array is the array, in order |
| `Hyperslab.FromZeroShift` | HDF5CFArray.cc:921-922 | with every start set to zero each index moves down by the index of the offset |
| `Hyperslab.InsideWindow` | HDF5CFArray.cc:246-256 | every selected index is between that of the first and the last selected element |
| `Hyperslab.WindowSelection` | HDF5CFArray.cc:919-925 | selecting from the window with zero starts and the full sizes stays inside the window and equals the direct selection |
| `Enumerate.Subset` | HDF5BaseArray.cc:401-427 | at any recursion depth appends to the output exactly the selected elements below the fixed positions and leaves those positions as they were |
| `Enumerate.SubsetAll` | HDF5Array.cc:1704-1727 | from the top, for any rank: the selection, in order |
| `Enumerate.ObtainNextPos` | HDF5Array.cc:1678-1691 | moves from the j-th to the next selected position in the leading dimensions and touches no other; returns false only when called for one dimension that is exhausted |
| `Enumerate.SelectByOdometer` | HDF5Array.cc:1145-1155 | stepping the odometer visits the elements of the selection in the order of `subset`, and the position after the last step is still in range |
| `Enumerate.OdometerInRange` | HDF5Array.cc:1326-1327 | the position that is linearised is in range after every step, the last one included |
| `Cells.ViewFlatten` | HDF5BaseArray.cc:420-422 | a typed view of the concatenated elements shows the elements |
| `Cells.FlattenWindow` | HDF5CFArray.cc:256-258 | the byte window at size * first of size * n bytes holds the elements first to last |
| `DiskProtocol.StepKeepsLocks` | HDF5DiskCache.cc:138-159 | every step keeps: locks are held by exactly the processes inside a read or write, never both kinds at once, and a locked file exists |
| `DiskProtocol.StepKeepsKnowledge` | HDF5DiskCache.cc:199-234 | every step, under either protocol, keeps: the file is a part of what a writer of one of them writes, image first, and what each process has checked, read or written of it is still so |
| `DiskProtocol.RunInv` | HDF5DiskCache.cc:138-234 | the invariant holds after every step of every interleaving of requests under both protocols, deaths of processes included |
| `DiskProtocol.HitsAreOfOneFile` | HDF5CFArray.cc:239-275 | in every interleaving, under both protocols and with deaths, a hit delivers the requested bytes of one file, of the size of the requester's image, that some writer has left; a process that has returned normally holds no lock, and a shared and an exclusive lock are never held together |
| `DiskProtocol.HitsAreComplete` | HDF5CFArray.cc:239-275 | if both protocols keep the same under the name, in every interleaving a hit delivers the requested bytes of the complete image |
| `DiskProtocol.OneProtocolHitsAreComplete` | HDF5CFArray.cc:239-275 | whatever the protocols keep, in every run of requests under one of them a hit delivers the requested bytes of that one's complete image |
| `DiskProtocol.OtherProtocolHits` | HDF5CFArray.cc:237-240 | whenever a writer of one protocol writes at least as many bytes as the image of the other has, there is a run in which the other takes the first of these bytes for its image; it takes a death only if more are written |
| `DiskProtocol.UnlockedFileIsComplete` | HDF5DiskCache.cc:199-234 | without deaths, whenever no exclusive lock is held an existing file is all that a writer of one of the protocols writes |
| `DiskProtocol.ShorterIsNeverHit` | HDF5CFArray.cc:237-240 | without deaths, a reader that expects fewer bytes than the writers of either protocol write never passes the size check |
| `DiskProtocol.OthersInterfere` | HDF5DiskCache.cc:138-159 | whatever the other processes do, deaths included, leaves a process its phase, its locks and a locked file |
| `DiskProtocol.FullSizeIsComplete` | HDF5DiskCache.cc:122-134 | if the protocols keep the same, in every run a file of the size of the image is the image, even if writers write more than that |
| `DiskProtocol.WriterLeaves` | HDF5DiskCache.cc:207-214 | for every size up to the whole, a run that leaves an unlocked file of that size behind, with a death only if it is not the whole |
| `DiskProtocol.StaleFileReplaced` | HDF5DiskCache.cc:150-158 | for every file of a wrong size there is a run in which it is found, removed and replaced by the image, and the next request is answered from that |
| `DiskCache.HDF5DiskCache.GetDataFromCache` | HDF5DiskCache.cc:138-159 | by steps of the protocol amid any interference: a hit exactly if the file that is found has the expected size; then the shared lock is held on that file, which a writer of either protocol has left; a miss holds no lock |
| `DiskCache.HDF5DiskCache.Read` | HDF5CFArray.cc:902-906 | amid any interference, a prefix of the requested window of the file that was found |
| `DiskCache.HDF5DiskCache.WriteCachedData2` | HDF5DiskCache.cc:199-234 | by steps of the protocol amid any interference: success has left exactly the buffer in the file; every normal return has released the lock; only a failed removal after a short write does not |
| `CFArray.PayloadIsImage` | HDF5CFArray.cc:1340-1385 | the bytes handed to the cache start with the image, whatever was selected, and are the image exactly unless the variable is a signed char under DAP4, which is written with as much again behind it |
| `CFArray.Short` | HDF5CFArray.cc:414-420 | the two bytes, low one first, have the value of the signed byte, both in two's complement |
| `CFArray.AnswerNumbers` | HDF5CFArray.cc:398-424 | what is sent is the selection itself, or for a signed char under DAP2 shorts of the same values |
| `CFArray.DoubledNeverMatches` | HDF5CFArray.cc:424-427 | the doubled size written for a signed char never equals the single size expected under DAP4 |
| `CFArray.WindowAnswers` | HDF5CFArray.cc:911-925 | for any array: a window with as many elements as are selected is the selection, and any window re-selected from zero is |
| `CFArray.FileWindow` | HDF5CFArray.cc:246-258 | for any file of the right size, the byte window between two elements shows the elements first to last |
| `CFArray.FileAnswerAt` | HDF5CFArray.cc:898-930 | an answer from a cache file consists of the bytes of the selected elements, found at index * size |
| `CFArray.HittableAnswers` | HDF5CFArray.cc:234-240 | unless the variable is a signed char, every file that may be found and has the right size is the image, and answers directly |
| `CFArray.AgreeUnlessChar` | HDF5CFArray.cc:1340-1385 | both protocols expect and write the same bytes for every variable but a signed char |
| `CFArray.HDF5CFArray.SendWindow` | HDF5CFArray.cc:911-1334 | sends the selection of the whole file from the elements of its window, as they stand or re-selected |
| `CFArray.HDF5CFArray.ObtainCachedData` | HDF5CFArray.cc:898-1334 | the window, fully read, gives the selection of the file that was found, whoever has left it; a short read answers nothing; the lock is released either way |
| `CFArray.HDF5CFArray.WriteDataToCache` | HDF5CFArray.cc:1340-1385 | a successful write leaves the image in the file exactly when the variable is not a signed char under DAP4 |
| `CFArray.HDF5CFArray.ReadWindow` | HDF5CFArray.cc:237-268 | positions, reads and answers from a file of the right size left under either protocol, always if the system seeks and reads, or leaves the value alone; no lock remains |
| `CFArray.HDF5CFArray.ReadDataNotFromMemCache` | HDF5CFArray.cc:175-275 | any request answered from the dataset, or from the cache file of anything but a signed char, gets the direct hyperslab, for a signed char under DAP2 shorts of the same values; from the cache file of a signed char that of the file left under either protocol; a file of the right size is used unless the system fails; the memory-cache buffer is filled only from the dataset; every refusal is exact |
| `SharedCache.CharHittableIff` | HDF5CFArray.cc:234-240 | what is taken for the image of a signed char: the image, or under DAP2 any file of its size that starts with the characters, under DAP4 the first half of the shorts |
| `SharedCache.EveryHitRightIff` | HDF5CFUtil.cc:1202-1221 | with deaths or without, every hit of every run of requests under both protocols is the requested bytes of the requester's own image if and only if the variable is not a signed char |
| `SharedCache.WrongHitUnderDap2` | HDF5CFArray.cc:424-427 | for every signed char with elements, a run without deaths in which a DAP2 request gets wrong bytes from what a DAP4 request has written |
| `SharedCache.CutWriteHitsUnderDap4` | HDF5CFArray.cc:237-240 | for every such signed char, a run with a death in which a DAP4 request is answered from half of what DAP2 writes, right exactly if that half is the characters |
| `SharedCache.CharNeverHitUnderDap4` | HDF5CFArray.cc:237-240 | without deaths no DAP4 request for a signed char is answered from the cache |
| `SharedCache.SixBecomesZero` | HDF5CFArray.cc:1372-1384 | the characters 5 and 6: DAP4 leaves 5, 6, 0, 0, where DAP2 expects 5, 0, 6, 0 and is answered 0 for the second one |
| `MemCache.ReadDataFromMemCache` | HDF5BaseArray.cc:148-388 | refuses illegal constraints; otherwise sends the selection of the cached bytes |
| `MemCache.FaithfulHit` | HDF5BaseArray.cc:171-223 | a buffer with the variable's bytes answers every request directly |
| `MemCache.HitSends` | HDF5BaseArray.cc:205-217 | a hit sends the selection, except for n signed chars under DAP2: n shorts made of the selected bytes in pairs and then of the bytes behind them |
| `MemCache.HitTransparentIff` | HDF5BaseArray.cc:205-217 | a hit answers like a direct read, whatever lies behind the selected bytes, if and only if no signed char is promoted |
| `MemCache.UnfilledEntryTransparentIff` | HDF5CFArray.cc:270-271 | the entry left when the disk cache answers is right for every request if and only if the variable is all zero bytes |
| `MemCache.HandleDataWithMemCache` | HDF5BaseArray.cc:526-608 | one request under either protocol: the answer and the exact new contents, for a hit, for each kind of miss, for any set of evicted entries, whatever either protocol has left in the disk cache; refused only without dimensions, for an illegal constraint or when a removal in the disk cache fails; an error changes nothing |
| `MemCache.RunFaithful` | HDF5BaseArray.cc:591-604 | over any run of requests under both protocols and evictions in which the disk cache answers misses for variables of zero bytes only, every entry is its variable's bytes |
| `MemCache.RunTransparent` | HDF5BaseArray.cc:550-605 | over any such run without a request for a signed char under DAP2 every answer is the direct hyperslab under the protocol of its request |
| `MemCache.TransparentIff` | HDF5BaseArray.cc:205-217 | all runs without the disk cache, of requests under a given set of protocols, serve a variable directly if and only if it is not a signed char with DAP2 among them |
| `MemCache.TransparentWithDiskCacheIff` | HDF5CFArray.cc:270-271 | all runs with the disk cache do if and only if, besides, the variable consists of zero bytes |
| `MissLL.HDF5GMCFMissLLArray.ObtainAquObpgL3LL` | HDF5GMCFMissLLArray.cc:102-208 | the values are the constrained selection of the points of the dimension, and the start of the cached buffer is the announced points; refused exactly for a wrong rank, no lines, or more elements than announced; the grid fits the buffer exactly if no more points are announced than it has room for |
| `MissLL.HDF5GMCFMissLLArray.SendGpmL3LLToDap` | HDF5GMCFMissLLArray.cc:829-880 | the same for cell centres, refused exactly if one of the sizes is 0 or fewer points are announced than asked for |
| `MissLL.HDF5GMCFMissLLArray.ObtainGpmL3LL` | HDF5GMCFMissLLArray.cc:211-430 | the same, refused also for every rank but 1 |
| `MissLL.HDF5GMCFMissLLArray.ReadDataNotFromMemCache` | HDF5GMCFMissLLArray.cc:882-906 | either kind of coordinate, whatever its dimensions and attributes: the condition of success and of every refusal in terms of rank, lines, sizes and elements asked for, of the copy of the grid, and the value of each element |
| `MissLL.HDF5GMCFMissLLArray.HandleDataWithMemCache` | HDF5BaseArray.cc:526-608 | generated coordinates behind the memory cache: one request, for a hit and a miss, with every refusal, for dimensions that need not match the attributes; if they do, every legal request is answered with the requested points |
| `MissLL.GridRunPadded` | HDF5BaseArray.cc:591-604 | over any run every entry is the announced points, at least one and no more than the dimension, followed by zeros |
| `MissLL.GridRunTransparent` | HDF5BaseArray.cc:550-605 | over any run of requests and evictions every answer and every refusal is that of a direct read, if the attributes announce as many points as the dimensions have |
| `MissLL.GridTransparentIff` | HDF5GMCFMissLLArray.cc:185-204 | all runs serve a coordinate like direct reads if and only if the attributes announce as many points as its dimension has, or every request is refused |
| `MissLL.NeverExceedsIff` | HDF5GMCFMissLLArray.cc:198-204 | no run copies a grid beyond its buffer if and only if no more points are announced than the dimension has, or every request is refused |
| `MissLL.HitShows` | HDF5BaseArray.cc:550-578 | a hit sends zero for every element beyond the announced points, where a direct read continues the grid |
| `MissLL.GeneratedIsSelection` | HDF5GMCFMissLLArray.cc:194-203 | values generated at offset + i * step are the selection of the generated whole |
| `MissLL.SelectedCoordinates` | HDF5GMCFMissLLArray.cc:194-195 | element j is the coordinate of grid point offset + j * step, from the south-west point, or half a cell from the edge |
| `MissLL.NorthToSouth` | HDF5GMCFMissLLArray.cc:152-155 | latitudes end at the south-west point, start at the north-west corner and decrease |
| `CompoundLayout.ValueAtLocal` | HDF5Array.cc:446-500 | the value at an offset depends on its own bytes only |
| `CompoundLayout.WriteRead` | HDF5Array.cc:418-532 | reading the layout of any value gives the value back, for members that are disjoint and in range |
| `CompoundReader.Subsettable` | HDF5Array.cc:1361-1557 | by size and sign: the numbers whose DAP type has a branch for a constrained array |
| `CompoundReader.ConstrainedInt64Refused` | HDF5Array.cc:1553-1556 | four 64-bit integers are read as a whole and refused in part |
| `CompoundReader.ReadMember` | HDF5Structure.cc:162-261 | one member of any class, read from inside the buffer: what is to be seen of it under the protocol, or an error exactly if it is not supported |
| `CompoundReader.DecodeWritten` | HDF5Structure.cc:162-261 | decoding a laid-out value: plain numbers asked for as a whole, nested in any compounds and arrays, come back as they are; so do numbers, strings and the selected elements of arrays of them; signed chars keep their values; every refusal of leaves and of arrays of leaves is exact |
| `CompoundReader.ReadableParts` | HDF5Array.cc:1095-1640 | what can be read: by class for a leaf, all members for a compound, a legal constraint and all members for an array of compounds, by class, size, sign and protocol for an array of leaves |
| `CompoundReader.ProjectParts` | HDF5Structure.cc:162-261 | what is seen: leaves as they are, signed chars with their values, members and selected elements one by one |
| `CompoundReader.PlainWholeReadable` | HDF5Structure.cc:118-261 | any nesting of compounds and arrays of plain numbers asked for as a whole can be read, arrays of arrays excepted |
| `CompoundReader.HDF5Structure.ReadMembers` | HDF5Array.cc:427-528 | the fields of one element are what is to be seen at its offset |
| `CompoundReader.HDF5Structure.DoStructureRead` | HDF5Structure.cc:118-261 | a structure, recursively, at member offset + values offset |
| `CompoundReader.HDF5Array.ReadStructures` | HDF5Array.cc:1142-1328 | an array of compounds: the selected elements, by loop counter if all are selected, by odometer otherwise |
| `CompoundReader.HDF5Array.ReadAtoms` | HDF5Array.cc:1335-1640 | an array of numbers or strings: as it lies if all is selected, a subset otherwise; refused exactly for a whole array of signed chars and for a proper selection of numbers without a branch |
| `CompoundReader.HDF5Array.DoH5ArrayTypeRead` | HDF5Array.cc:1095-1640 | an array member: what is to be seen of it through its own constraint |
| `CompoundReader.HDF5Array.MArrayOfStructure` | HDF5Array.cc:418-532 | every element of a dataset of compounds, at element * size |
| `CompoundReader.HDF5Array.ReadDataset` | HDF5Array.cc:325-532 | a constrained read of a dataset of compounds gives the projection of the dataset through its own and all inner hyperslabs; structures of plain numbers come back as they are, the selected ones in order |
| `CompoundReader.SeenOfLayout` | HDF5Structure.cc:118-261 | what is seen of a laid-out value is its projection, so decoding inverts the layout |
| `CompoundReader.ElementPlace` | HDF5Array.cc:1208-1215 | if everything is selected the loop counter is the element's index |
| `DasCodec.CopyStr` | HDF5RequestHandler.cc:2403-2413 | appends the length and the characters and moves the cursor behind them |
| `DasCodec.WriteDasAttrInfo` | HDF5RequestHandler.cc:2136-2184 | the precomputed size is exactly what is written: flag, name, type, count, values |
| `DasCodec.WriteContainerNameToFile` | HDF5RequestHandler.cc:2116-2132 | appends the container flag and the name, in a buffer of exactly that size |
| `DasCodec.WriteDasTableToFile` | HDF5RequestHandler.cc:2067-2113 | refuses exactly if an attribute of unknown type occurs at some depth; otherwise appends the encoding of the table |
| `DasCodec.WriteDasToFile` | HDF5RequestHandler.cc:2053-2064 | the top-level table and the end mark |
| `DasCodec.ObtainStr` | HDF5RequestHandler.cc:2419-2431 | the string, with the cursor exactly behind it whatever follows |
| `DasCodec.ReadContainer` | HDF5RequestHandler.cc:2451-2467 | one container is added to the table that was current before, which is current again afterwards |
| `DasCodec.GetAttrInfoFromDc` | HDF5RequestHandler.cc:2436-2501 | adds exactly the encoded table, refuses exactly an attribute outside any table, ends exactly behind the end mark, terminates |
| `DasCodec.StrDelimited` | HDF5RequestHandler.cc:2403-2431 | no string's encoding can be mistaken for another's |
| `DasCodec.LowByteFirst` | HDF5RequestHandler.cc:2403-2413 | a number is written with its least significant byte first, in 4 or 8 bytes |
| `DasCodec.SmallFile` | HDF5RequestHandler.cc:2053-2184 | the bytes of a file with one attribute in one container |
| `DasCodec.WritableTables` | HDF5RequestHandler.cc:2067-2113 | entry by entry: which tables can be written and be read back |
| `DasCodec.AttrDelimited` | HDF5RequestHandler.cc:2067-2184 | the encoding of one attribute or container determines it and what follows |
| `DasCodec.TableDelimited` | HDF5RequestHandler.cc:2067-2113 | two tables whose encodings start the same byte sequence are equal, and so is what follows |
| `DasCodec.ReadDasFromDiskCache` | HDF5RequestHandler.cc:1881-1939 | a written file, whatever follows in it, is read back as the same tree exactly if its top level holds only containers |
| `DasCodec.SaveAndLoad` | HDF5RequestHandler.cc:2005-2044 | saving and loading rebuilds names, types, values, order and nesting |
| `Names.GetCFString` | HDF5CF.cc:1525-1537 | letters, digits and underscores only, not starting with a digit; every other character replaced one for one |
| `Names.CFString` | HDF5CF.cc:1525-1537 | unchanged exactly if already such a name |
| `Names.CFStringIdempotent` | HDF5CF.cc:1525-1537 | a second application changes nothing |
| `Names.GenUniqueName` | HDF5CFUtil.cc:309-324 | terminates with the smallest suffix that makes a new name, and enters that name |
| `Names.SuffixInjective` | HDF5CFUtil.cc:313-315 | different numbers make different names |
| `Names.DecNumeral` | HDF5CFUtil.cc:313-315 | the suffix is the decimal numeral of the number: its digits times powers of ten add up to it, without a leading zero, and no other numeral does |
| `Names.HandleGeneralNameClashing` | HDF5CF.cc:1471-1511 | first holders keep their names, every other object gets an underscore and the smallest number that makes a new name, all are distinct and new to the set, and the set receives the final names |
| `Names.ResolvedOnce` | HDF5CF.cc:1471-1511 | this determines the final names |
| `Names.ThreeOfAName` | HDF5CF.cc:1471-1511 | three objects named temp end up as temp, temp_1 and temp_2 |
| `Names.FirstHolder` | HDF5CF.cc:1489-1497 | every name not taken before is held by an unclashed object |
| `Names.ResolvedKeepsAlphabet` | HDF5CF.cc:1501-1510 | resolving clashes stays within letters, digits and underscores |
| `Names.TableKeepsAlphabet` | HDF5CF.cc:1426-1432 | so does numbering the global table |
| `Names.SmallTable` | HDF5CF.cc:1426-1432 | a table named G becomes G2 if G and G1 are taken |
| `Names.File.HandleObjAttrNameClashing` | HDF5CF.cc:1440-1466 | the attributes of the root, of each group and of each variable are made distinct, every one by itself |
| `Names.File.HandleGroupNameClashing` | HDF5CF.cc:1412-1437 | the global table is numbered if its name is taken; the groups are then resolved against it and the set |
| `Names.File.HandleGeneralObjNameClashing` | HDF5CF.cc:1514-1522 | variables, global table and groups are distinct altogether and stay within letters, digits and underscores, attributes are resolved per object; without attributes only variables are renamed |
| `Names.AllDistinct` | HDF5CF.cc:1514-1522 | batches resolved one after the other against one set are distinct altogether |
| `FakeDims.DimensionTable.InsertOneNameSizeMapElement` | HDF5CF.cc:1542-1554 | throws exactly if the name is in one of the maps, otherwise records size and unlimited flag |
| `FakeDims.DimensionTable.AddOneFakeDimName` | HDF5CF.cc:1585-1635 | the shared name of the size or the next generated one with all tables updated; throws exactly if that name is used; never from a valid table |
| `FakeDims.DimensionTable.AdjustDuplicateFakeDimName` | HDF5CF.cc:1638-1669 | a fresh name with all tables updated, the shared name untouched; throws exactly if that name is used; never from a valid table |
| `FakeDims.DimensionTable.NameDimension` | HDF5GMCF.cc:2700-2707 | one dimension: its exact name and the next number, and names of the variable stay distinct and recorded with their sizes |
| `FakeDims.DimensionTable.NameDimensions` | HDF5GMCF.cc:2698-2708 | one variable: distinct names, each recorded with its size, the first of each size with the shared name; never throws |
| `FakeDims.DimensionTable.NameVariables` | HDF5GMCF.cc:2691-2710 | all variables: the same in one final table, in which names map to sizes and sizes back to names |
| `FakeDims.AddProper` | HDF5GMCF.cc:2702-2706 | adding the shared name of a new size, or a new name for a repeated size, keeps the names of a variable proper |
| `Paths.DirectoryOf` | HDF5CFUtil.cc:225-233 | the directory of a path is what precedes its last name |
| `Paths.DirIsAncestor` | HDF5Array.cc:1809 | one directory path is a prefix of another exactly if it is an ancestor or the same |
| `DimScope.WalkUp` | HDF5Array.cc:1786-1835 | terminates; leaves the path exactly if group and directory are incomparable; else finds what the group with that full name declares |
| `DimScope.TargetIsHome` | HDF5Array.cc:1814-1818 | the group whose full name is the directory is the only one that decides |
| `DimScope.BindDimension` | HDF5Array.cc:1782-1853 | throws exactly if the paths are incomparable; binds to the declaration found, or to a new dimension of that name and size added to the group |
| `DimScope.H5dimsTransformToDap4` | HDF5Array.cc:1761-1860 | no group gives no result; all dimensions are bound properly with respect to the final declarations, or it throws exactly if some path is incomparable; only dimensions that one of these is bound to are added; other groups are untouched |
| `DimScope.OffPathIsUnrelated` | HDF5Array.cc:1807-1829 | the exception means that neither directory is an ancestor of the other |
| `DimScope.TargetInDirectory` | HDF5Array.cc:1801-1818 | the declaration is looked up in the ancestor that is the dimension's directory, if it is one |
| `DimScope.BelowAlwaysAdds` | HDF5Array.cc:1844-1851 | a directory below the group is accepted but never found |
| `CoordPath.GetRelpathPos` | HDF5CFUtil.cc:1244-1258 | all positions where the substring occurs, in order |
| `CoordPath.OccurrencesAre` | HDF5CFUtil.cc:1244-1258 | these are exactly the positions where the characters match, in increasing order |
| `CoordPath.ChaCo` | HDF5CFUtil.cc:1261-1297 | the rewriting of one name, for all inputs |
| `CoordPath.ReducedIs` | HDF5CFUtil.cc:1264-1295 | in terms of directories: a bare name joins the variable's directory; leading steps up drop directories; everything else is unchanged |
| `CoordPath.ResolveUp` | HDF5CFUtil.cc:1271-1284 | steps up that come first are resolved by dropping as many directories, if there are enough |
| `CoordPath.ReducedRightIff` | HDF5CFUtil.cc:1276-1285 | for a name that starts with a step up the result is the file that is meant if and only if no step follows anything else and they stay below the root |
| `CoordPath.ReducedOtherwise` | HDF5CFUtil.cc:1264-1295 | a bare name joins the variable's directory, every other name without a leading step up is unchanged |
| `CoordPath.SmallNames` | HDF5CFUtil.cc:1261-1297 | seen from /x/y/v: b becomes x/y/b, ../b becomes x/b, a/b and ../../../b stay |
| `CoordPath.InteriorStepMiscounted` | HDF5CFUtil.cc:1277-1283 | "../a/../b" seen from /x/y/v becomes b instead of x/b |
| `Angles.SplitProper` | HDF5CFUtil.cc:1030-1034 | degrees, minutes and seconds are exact, of one sign, with minutes and seconds below sixty |
| `Angles.AdjustProper` | HDF5CFUtil.cc:1044-1063 | after the carry logic minutes are at most 59 and seconds below 60; the angle moves by less than 1e-7 seconds, by nothing exactly if the seconds are not next to 0 or 60 |
| `Angles.UnpackDigits` | HDF5CFUtil.cc:1020-1025 | d * 1000000 + m * 1000 + s unpacks to d + m / 60 + s / 3600, for all whole degrees and minutes and seconds of one sign below sixty |
| `Angles.PackDigits` | HDF5CFUtil.cc:1030-1065 | every angle is packed as such a sum, whose parts are within 0.0000001 seconds of the angle |
| `Angles.RoundTrip` | HDF5CFUtil.cc:1020-1065 | packing and unpacking changes any angle by less than 0.0000001 / 3600 degree, and when it is exact |
| `Angles.PackedRoundTrip` | HDF5CFUtil.cc:1020-1065 | unpacking and packing restores such a sum exactly if s is 0 or not within 0.0000001 of 0 or 60 |

## Left out

- Calls into HDF5, BES and libdap: a dataset is a sequence of elements, a DAP array its dimensions and values, the object cache a map with arbitrary eviction; libdap's lookup of a dimension by name is its first match.
- Grid.IndexNDTo1D: overflow of `int` and `size_t` is not modelled; `Hyperslab.CountsFitArray` bounds every product by the size of the array.
- Hyperslab.FormatConstraint: strides are at least 1 and stops below the sizes, as libdap guarantees for a parsed constraint.
- DiskProtocol.RunInv: the shared and exclusive file locks of the cache's base class are assumed, as are that a read lock is got whenever there is a file and that only unlocked files are removed.
- CFArray.HDF5CFArray.ObtainCachedData: does not promise that the file is gone after a short read, because it is removed only if no other process has it locked.
- DiskCache.HDF5DiskCache.GetDataFromCache: the name is that of one dataset, requested under either protocol; two datasets whose paths become the same name, because slashes and spaces are replaced by underscores, are not modelled.
- DiskCache.HDF5DiskCache.WriteCachedData2: a failed removal after a short write is an exception with the lock still held, as in the code.
- MissLL.HDF5GMCFMissLLArray.ObtainAquObpgL3LL: values are reals; rounding to float is not modelled, nor is reading the attributes that give first point, step and number. What happens after a copy beyond the buffer is not modelled; such a request ends as `GridExceedsBuffer`, which the code does not have.
- Angles.RoundTrip: over the reals, without rounding; the radian cases are left out, because they add only a factor.
- CompoundReader.ReadMember: a leaf without a DAP type never reaches the reader, because its structure is refused when it is built (h5get.cc:1154-1160, 1272-1274); the protocol is the same for all parts of a structure, and the host is little-endian; nested structures are returned as values and stored in the parent's fields, not filled in shared objects; variable-length strings are not modelled.
- CompoundReader.HDF5Array.ReadAtoms: a fully selected array of signed chars is an error here, because the code writes it into a vector without elements (HDF5Array.cc:1347-1349).
- CompoundReader.HDF5Structure.ReadMembers: a string member of an array element is an error here, because the code stores it through an object of the wrong type.
- DasCodec.GetAttrInfoFromDc: bytes that are no encoding are outside its contract, as they are for the code; names are distinct within a table, as libdap keeps them.
- DasCodec.WriteDasTableToFile: short writes to the file are not modelled; integers are little-endian with 8-byte sizes.
- Names.GetCFString: `isdigit` is taken to return 1 for a digit, as the comparison with `true` requires.
- DimScope.H5dimsTransformToDap4: the groups of the chain have tables of their own.
- CoordPath.ReducedIs: "." is an ordinary name; a variable's path starts with a slash.
- Type classes that only open, read and close, product detection, configuration, GCTP projections, message builders and the unused DDS cache: no state or arithmetic worth a proof.
- The filter of attributes with unsupported dataspaces: its flag is carried from one attribute to the next, so it has no simple specification.

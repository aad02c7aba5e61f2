# wasm-clang host runtime and traffic map, modelled in Dafny

This project models two pieces of JavaScript.

**The host runtime of wasm-clang** (`wasm-clang/shared.js`). The runtime
sits between the browser and three WebAssembly modules (the compiler, the
linker and an in-memory filesystem called memfs). The modelled parts are:

- `readStr`, which decodes a NUL-terminated string out of a byte array
  (`CStrings`).
- The `Memory` wrapper around a `WebAssembly.Memory` (`Memories`). Its
  byte and word overlays go stale when the guest grows its memory, and
  `check` re-acquires them. The model covers `read8`/`read32`,
  `write8`/`write32`/`write64`, `readStr`, `write` and `writeStr`.
  Typed-array reads outside the array are `undefined` (`None`), and
  writes outside it are ignored. `new Uint8Array(buffer, o, len)` throws
  `RangeError` or `TypeError` as the standard says.
- The syscalls that memfs imports (`Syscalls`): `abort`, `host_write`,
  `host_read`, `memfs_log`, `copy_in` and `copy_out`, plus `setStdinStr`
  and the `hostMem` setter. Both memories are `Memory` objects. The
  output sink, the console and the node table are logs on the `MemFS`
  object.
- The `Tar` reader (`TarReader`): `readStr`, `readOctal`, `alignUp`,
  `readEntry` and `untar`. It walks the 512-byte blocks of a GNU-flavour
  ustar archive and replays regular files and directories into the
  filesystem. `parseInt(_, 8)` is modelled exactly: leading white space,
  one sign, the longest run of octal digits, and `NaN` as `None`.
  `(x + 511) & ~511` is modelled with its 32-bit conversion, and
  `subarray` with its clamping.

**The traffic map** (`traffic-map/traffic-map.js`), in module
`TrafficMap`. The modelled parts are:

- `getCircle`, the threshold classifier from a volume to a marker.
- `loadLocationData`, which appends the file's intersections at
  volume 0.
- The aggregation loop of `fetchTrafficData`, which sums each reported
  device's `"trafficVolume"` readings into the matching intersection.

Each loop of the source is a method with its invariants, proved against
a specification function. Each class whose fields the source updates is a
class, with `modifies` clauses. The properties the code promises are
proved as lemmas over those functions:

- round trips: a word store read back, a string written then read, a
  rendered octal field parsed;
- exact totals for `host_write` and `host_read`;
- block arithmetic of the archive walk, and termination of `untar` on
  archives with sane sizes;
- the bands and monotonicity of `getCircle`;
- the per-intersection result of aggregation.

Where the runtime's prose description and its code differ, the model
follows the code:

- **Zero-length iovec.** `host_read` stops at an iovec of length 0
  (`lenToWrite === 0` breaks the loop). So the total it copies is
  `min(remaining input, sum of the lengths before the first zero-length
  iovec)` (`ScatterTotal`). This is `min(remaining input, sum of
  lengths)` in particular when no iovec has length 0
  (`ScatterTotalNoEmpty`, `FillableIsTotal`).
- **Overlay refresh.** The accessors of `Memory` do not refresh the
  overlays themselves. `check` is called by the syscalls and by
  `addDirectory`, `addFile` and `getFileContents`. `AddDirectory` and
  `AddFile` leave their `check` out, together with the byte copies it
  prepares. So a read through a stale overlay gives `undefined`
  (`ReadAcrossGrowth`).
- **Out-of-range offsets.** They are not undefined behaviour. They follow
  the typed-array rules above.
- **`readStr` past the array.** `readStr` with an explicit length does
  not stop at the end of the array. There `undefined != 0` holds, and
  `String.fromCharCode(undefined)` is `"\0"`, so the string is padded
  with code unit 0.
- **Rewinding `untar`.** A regular-file header whose size field does not
  parse sends the cursor back to 0: `offset += NaN`, then
  `NaN & ~511 == 0`. From then on `untar` re-reads the first entry
  forever (`UntarRepeats`).

`readEntry`'s header reads go through `Tar.ReadStr`, and the numeric
fields are parsed at the point the entry is built. This reads the same
bytes and gives the same values as calling `readOctal` on each field
(`Tar.ReadOctal` is modelled on its own).

## Model

| member | source | states |
|---|---|---|
| Base.ToInt32 | wasm-clang/shared.js:280 | ToInt32 lands in the signed 32-bit range and leaves a value already in it unchanged |
| CStrings.CharAt | wasm-clang/shared.js:11 | `fromCharCode(u8[i])` is a code unit below 256, equal to the byte inside the array |
| CStrings.Decode | wasm-clang/shared.js:10-11 | the decoded string is never longer than the scanned range |
| CStrings.DecodeSpec | wasm-clang/shared.js:5-13 | every character is the byte at its position, no such byte is 0, and the scan stopped at `end` or at a zero byte |
| CStrings.ReadStr | wasm-clang/shared.js:5-13 | the loop returns the decoded string of `[o, o+len)` (or up to the array's end for len = -1) |
| CStrings.CStringLength | wasm-clang/shared.js:5-13 | the result is never longer than `len`, nor than the rest of the array when `len` is -1 |
| CStrings.DecodeLocal | wasm-clang/shared.js:5-13 | the result depends only on the bytes of the scanned range |
| CStrings.DecodeText | wasm-clang/shared.js:5-13 | a range holding NUL-free text, followed by 0 or filling the range, decodes to that text |
| CStrings.CStringText | wasm-clang/shared.js:5-13 | `readStr(u8, o, n)` over `n` non-zero bytes returns exactly those bytes |
| Memories.Word | wasm-clang/shared.js:103 | `u32[k]` is defined exactly for word indices inside the overlay, and is below 2^32 |
| Memories.LittleEndianRoundTrip | wasm-clang/shared.js:103-105 | the four bytes a word store writes read back as that word |
| Memories.ViewFault | wasm-clang/shared.js:125 | a byte view is built exactly when offset and length are non-negative, the buffer is attached and the view fits |
| Memories.Read32AfterWrite32 | wasm-clang/shared.js:103-105 | `read32(o)` after `write32(o, v)` gives `v mod 2^32`, and only that word's four bytes change |
| Memories.Write32OtherWords | wasm-clang/shared.js:105 | a word store leaves every other word as it was |
| Memories.WordIndexIgnoresLowBits | wasm-clang/shared.js:103-105 | `o >> 2` ignores the two low bits of a non-negative offset |
| Memories.Read64AfterWrite64 | wasm-clang/shared.js:106 | `write64(o, lo, hi)` stores `lo` at word `o/4` and `hi` at the next word |
| Memories.SpliceBytes | wasm-clang/shared.js:119-129 | `Uint8Array.set` stores each value mod 256 from `o` on and leaves every other byte alone |
| Memories.ReadStrAfterWriteStr | wasm-clang/shared.js:113-117 | a string of bytes 1..255 written by `writeStr` reads back unchanged through `readStr` |
| Memories.Memory.constructor | wasm-clang/shared.js:87-92 | the overlays view the memory's current buffer |
| Memories.Memory.Check | wasm-clang/shared.js:94-100 | the overlays are re-acquired exactly when the old buffer is detached (byte length 0), and are live afterwards |
| Memories.Memory.Read8 | wasm-clang/shared.js:102 | returns the byte at `o`, or `undefined` outside the overlay |
| Memories.Memory.Read32 | wasm-clang/shared.js:103 | returns the word at index `o >> 2`, or `undefined` outside the overlay |
| Memories.Memory.Write8 | wasm-clang/shared.js:104 | stores `v mod 256` at `o`; a store outside is ignored |
| Memories.Memory.Write32 | wasm-clang/shared.js:105 | stores `v mod 2^32` little-endian at word `o >> 2`; a store outside is ignored |
| Memories.Memory.Write64 | wasm-clang/shared.js:106 | two word stores, `lo` at `o` and then `hi` at `o + 4` |
| Memories.Memory.ReadStr | wasm-clang/shared.js:108-110 | `readStr` over the current byte overlay |
| Memories.Memory.Write | wasm-clang/shared.js:119-129 | bytes or code units land at `[o, o+n)` mod 256, and the result is `n`; otherwise the view's exception is thrown and nothing changes |
| Memories.Memory.WriteStr | wasm-clang/shared.js:113-117 | the units land at `[o, o+n)`, a 0 goes to `o+n`, and the result is `n+1`; a failed view changes nothing |
| Memories.ReadAcrossGrowth | wasm-clang/shared.js:94-103 | after growth a stale overlay reads `undefined`; after `check` old bytes are unchanged and new ones read 0 |
| Syscalls.IovecAt | wasm-clang/shared.js:199-201 | a descriptor's buffer and length are unsigned 32-bit words |
| Syscalls.DescriptorRead | wasm-clang/shared.js:199-202 | the two `read32` at `iovs + 8i` and `iovs + 8i + 4` give descriptor `i` |
| Syscalls.GatheredLength | wasm-clang/shared.js:193-209 | the emitted string is never longer than the reported count, and equally long exactly when no buffer is cut by a zero byte |
| Syscalls.GatheredPair | wasm-clang/shared.js:198-205 | two iovecs emit their decoded buffers in order, and report the sum of their lengths |
| Syscalls.GatherAbcDe | wasm-clang/shared.js:198-205 | iovecs over "abc" and "de" emit "abcde" |
| Syscalls.ReadTurn | wasm-clang/shared.js:220-229 | a turn copies `min(len, remaining input)`; only a non-empty copy that fills its iovec lets the loop go on |
| Syscalls.ScatterGoesOn | wasm-clang/shared.js:215-230 | after a turn that fills its iovec, the read continues with the next descriptor over the updated memory |
| Syscalls.ScatterStops | wasm-clang/shared.js:220-229 | any other turn ends the read there: with the copy's exception, or with the memory, cursor and count it left |
| Syscalls.ScatterCursor | wasm-clang/shared.js:211-235 | memory keeps its size; the cursor only moves forward, by exactly the count copied, within the input |
| Syscalls.ScatterExhausted | wasm-clang/shared.js:211-235 | with the input exhausted a read copies nothing and reports 0 |
| Syscalls.ScatterUpFront | wasm-clang/shared.js:215-230 | if no copy overwrites the iovec table, reading descriptors as turns come equals reading them all first |
| Syscalls.ScatterListTotal | wasm-clang/shared.js:215-230 | over in-memory buffers the read copies `min(remaining, fillable length)` and advances the cursor by that |
| Syscalls.ScatterTotal | wasm-clang/shared.js:211-235 | `host_read` copies `min(remaining input, lengths before the first zero-length iovec)` and advances the cursor by exactly that |
| Syscalls.ScatterTotalNoEmpty | wasm-clang/shared.js:211-235 | with no zero-length iovec, `host_read` copies `min(remaining input, sum of the lengths)` and advances the cursor by that |
| Syscalls.FillableIsTotal | wasm-clang/shared.js:215-230 | when no iovec has length 0 the lengths the loop can fill are all of them: their sum is the count `host_write` would report |
| Syscalls.MemFS.constructor | wasm-clang/shared.js:133-154 | input is the given string at position 0; no guest memory is wired yet, and nothing is written, logged or created |
| Syscalls.MemFS.SetHostMem | wasm-clang/shared.js:156-158 | the guest memory used by the syscalls is replaced |
| Syscalls.MemFS.SetStdinStr | wasm-clang/shared.js:160-163 | the input is replaced and its cursor reset to 0 |
| Syscalls.MemFS.AddDirectory | wasm-clang/shared.js:165-169 | one directory node for `path` is created |
| Syscalls.MemFS.AddFile | wasm-clang/shared.js:171-180 | one file node for `path` with the given contents is created |
| Syscalls.MemFS.Abort | wasm-clang/shared.js:191 | always throws `AbortError` |
| Syscalls.MemFS.HostWrite | wasm-clang/shared.js:193-209 | with no guest memory wired, `TypeError`; `fd > 2` fails the assertion with no effect; otherwise one output string is sent, the sum of lengths goes to `nwritten_out`, 0 is returned |
| Syscalls.MemFS.HostRead | wasm-clang/shared.js:211-235 | with no guest memory wired, `TypeError`; `fd != 0` fails with no effect; otherwise memory and cursor become the read loop's result, its count goes to `nread`, 0 is returned |
| Syscalls.MemFS.MemfsLog | wasm-clang/shared.js:237-240 | after `check`, logs the string at `buf` in the filesystem module's memory |
| Syscalls.MemFS.CopyOut | wasm-clang/shared.js:242-249 | copies `size` bytes from the filesystem memory to the guest; a bad view, or no guest memory wired (`TypeError`), throws and changes no bytes |
| Syscalls.MemFS.CopyIn | wasm-clang/shared.js:251-258 | copies `size` bytes from the guest memory to the filesystem's; a bad destination view throws first, then no guest memory (`TypeError`) or a bad source view; no bytes change on any of them |
| Syscalls.Gather | wasm-clang/shared.js:196-205 | the `host_write` loop returns the concatenated decoded buffers and the sum of the lengths |
| Syscalls.ScatterInput | wasm-clang/shared.js:214-230 | the `host_read` loop leaves the memory, cursor and count (or exception) of the read function |
| Syscalls.ReadIovec | wasm-clang/shared.js:199-202 | the two word reads return descriptor `i` of the table |
| Syscalls.CopyTurn | wasm-clang/shared.js:220-229 | one turn copies `min(len, remaining)` input units to the buffer and says whether the loop breaks |
| Syscalls.CopyBytes | wasm-clang/shared.js:248 | `dst.set(src)` copies the source bytes into the destination range and nothing else |
| TarReader.TrimStart | wasm-clang/shared.js:276 | trimming never lengthens the string |
| TarReader.TrimStartSpec | wasm-clang/shared.js:276 | `parseInt` drops exactly the leading white space |
| TarReader.DigitRun | wasm-clang/shared.js:276 | the digit run is a prefix of the string |
| TarReader.DigitRunSpec | wasm-clang/shared.js:276 | the run holds only octal digits and stops at the end or before a non-digit |
| TarReader.OctalValueDigits | wasm-clang/shared.js:276 | the octal rendering of `n` parses back to `n` |
| TarReader.OctalValueZeros | wasm-clang/shared.js:276 | leading zero digits do not change the value |
| TarReader.ParseOctalField | wasm-clang/shared.js:290-295 | a field of white space, an optional sign, zero padding, the digits of `n` and a non-digit reads as `±n` |
| TarReader.AlignedUp | wasm-clang/shared.js:279-281 | the aligned offset is a signed 32-bit integer |
| TarReader.AlignedUpRounds | wasm-clang/shared.js:279-281 | without overflow the result is a multiple of 512 in `[x, x + 512)` |
| TarReader.AlignedUpLeast | wasm-clang/shared.js:279-281 | no multiple of 512 that is at least `x` lies below the result |
| TarReader.AlignedUpIdempotent | wasm-clang/shared.js:279-281 | aligning an aligned offset leaves it alone |
| TarReader.HeaderBlock | wasm-clang/shared.js:288-309 | the 500 bytes of header fields, aligned, take exactly one block |
| TarReader.Clamp | wasm-clang/shared.js:312 | a `subarray` bound is clamped into the array, and one inside it stays as it is |
| TarReader.Subarray | wasm-clang/shared.js:312 | a subarray is never longer than the array |
| TarReader.SubarrayForward | wasm-clang/shared.js:312 | a forward subarray from inside the array is its bytes up to the end or the array's end |
| TarReader.Field | wasm-clang/shared.js:289-308 | a decoded header field is never wider than its width |
| TarReader.ReadFieldsIndex | wasm-clang/shared.js:288-308 | field `k` is the string decoded at its offset and width in the header layout |
| TarReader.ParseFieldsIndex | wasm-clang/shared.js:290-295 | numeric field `k` is its string through `parseInt(_, 8)` |
| TarReader.HeaderKeys | wasm-clang/shared.js:289-300 | the name, type flag and size come from bytes 0, 156 and 124; the magic is the 8 bytes at 257 |
| TarReader.HeaderFields | wasm-clang/shared.js:288-308 | every header field is decoded at its offset, the numeric ones through `parseInt(_, 8)` |
| TarReader.ReadEntryAt | wasm-clang/shared.js:283-320 | an entry returned is a regular file with contents or a directory without |
| TarReader.AfterHeader | wasm-clang/shared.js:309-319 | past the header, an entry returned is a regular file with contents or a directory without |
| TarReader.ReadEntryAfterHeader | wasm-clang/shared.js:283-320 | past a full block with the right magic, only the type flag decides what `readEntry` does |
| TarReader.NoEntry | wasm-clang/shared.js:284-302 | `null` exactly when fewer than 512 bytes remain or the magic is wrong; the cursor stays, or is just past the magic |
| TarReader.UnknownTypeFails | wasm-clang/shared.js:311-318 | a type flag other than '0' and '5' fails the assertion |
| TarReader.DirectoryBlock | wasm-clang/shared.js:309-315 | a directory header consumes exactly its block and has no contents |
| TarReader.FileBlocks | wasm-clang/shared.js:309-314 | a file's contents are the `size` bytes after its header, and the cursor ends at the least block boundary at or after them |
| TarReader.UnparsedSizeRewinds | wasm-clang/shared.js:311-314 | a file with an unparsable size gets empty contents and sends the cursor back to 0 |
| TarReader.NodeOf | wasm-clang/shared.js:325-332 | a '0' entry becomes a file node and any other entry a directory node, under the entry's filename |
| TarReader.Untarred | wasm-clang/shared.js:322-334 | a replay of `fuel` rounds creates at most `fuel` nodes |
| TarReader.EntryAdvances | wasm-clang/shared.js:283-320 | with sane sizes, each entry read at a block boundary moves the cursor to a later block boundary |
| TarReader.UntarredGoesOn | wasm-clang/shared.js:324-332 | after an entry, its node comes first and the replay resumes where `readEntry` left the cursor |
| TarReader.UntarredStops | wasm-clang/shared.js:324 | the loop ends at a `null` entry or an exception, creating no node for it |
| TarReader.UntarEnds | wasm-clang/shared.js:322-334 | with sane sizes, `untar` ends by itself within one round per block plus one |
| TarReader.ParseRendered | wasm-clang/shared.js:276 | the octal digits of `n`, alone in a field, read back as `n` |
| TarReader.NameReads | wasm-clang/shared.js:289 | a name of at most 100 non-zero bytes, NUL-padded, reads back as that name |
| TarReader.SizeReads | wasm-clang/shared.js:293 | a size written as octal digits and a NUL reads back as that size |
| TarReader.TypeReads | wasm-clang/shared.js:296 | the type flag byte reads back as a one-character string |
| TarReader.MagicReads | wasm-clang/shared.js:300 | the magic "ustar  " and its NUL pass the magic check |
| TarReader.MemberHeader | wasm-clang/shared.js:288-302 | a writer's header block reads back as the member's name, type flag and size, with the magic |
| TarReader.BlockEnd | wasm-clang/shared.js:309-314 | after a file's contents the cursor lands exactly where the writer's zero padding ends |
| TarReader.ReadMember | wasm-clang/shared.js:283-320 | `readEntry` over a member's blocks returns that member's entry and leaves the cursor just past them |
| TarReader.MemberRound | wasm-clang/shared.js:324-332 | one `untar` round over a member's blocks creates the member's node and resumes just past them |
| TarReader.UntarFrom | wasm-clang/shared.js:322-334 | from a block boundary, `untar` over the rest of an archive creates its members' nodes in order and finishes at its end |
| TarReader.UntarArchive | wasm-clang/shared.js:322-334 | an archive built from files and directories with names of at most 100 non-zero bytes untars to exactly their nodes, in order, then reads `null` at the end |
| TarReader.UntarRepeats | wasm-clang/shared.js:311-334 | if the first entry is a file with unparsable size, `untar` never ends and keeps adding the same empty file |
| TarReader.Tar.constructor | wasm-clang/shared.js:264-267 | the reader starts at offset 0 over the archive's bytes |
| TarReader.Tar.ReadStr | wasm-clang/shared.js:269-273 | returns the field decoded at the cursor and advances the cursor by `len` |
| TarReader.Tar.ReadOctal | wasm-clang/shared.js:275-277 | returns the field at the cursor through `parseInt(_, 8)` and advances by `len` |
| TarReader.Tar.AlignUp | wasm-clang/shared.js:279-281 | moves the cursor to the aligned offset |
| TarReader.Tar.ReadEntry | wasm-clang/shared.js:283-320 | result and cursor are those of the `readEntry` function from the old cursor |
| TarReader.Tar.ReadHeader | wasm-clang/shared.js:288-302 | with the magic, returns the header and moves 500 bytes; without it, returns `null` 265 bytes on |
| TarReader.Tar.ReadContents | wasm-clang/shared.js:309-319 | result and cursor are those of the after-header step for the entry |
| TarReader.Tar.UntarEntry | wasm-clang/shared.js:324-332 | one loop round adds one node and leaves the rest of the replay, or ends it |
| TarReader.Tar.Untar | wasm-clang/shared.js:322-334 | nodes appended, end and cursor are those of the replay of at most `fuel` rounds |
| TrafficMap.BandRanges | traffic-map/traffic-map.js:8-22 | the band is 0 below 200, 1 below 300, 2 below 1000 and 3 from 1000 |
| TrafficMap.GetCircle | traffic-map/traffic-map.js:5-24 | the marker is that of the volume's band; colour equals fill colour, and properties are defined exactly from 200 |
| TrafficMap.RadiusMonotone | traffic-map/traffic-map.js:5-24 | a volume with a marker is drawn no larger than any larger volume, which also has one |
| TrafficMap.VolumeIsSum | traffic-map/traffic-map.js:49-54 | a report's total is the sum of its `"trafficVolume"` values, and other readings are ignored |
| TrafficMap.FindFrom | traffic-map/traffic-map.js:46 | `find` returns the first site with the id, or none when no site has it |
| TrafficMap.AggregatedKeepsSites | traffic-map/traffic-map.js:45-56 | aggregation keeps every site's id and name |
| TrafficMap.AppliedValue | traffic-map/traffic-map.js:46-55 | one report sets exactly the site `find` picks for it |
| TrafficMap.AggregatedValue | traffic-map/traffic-map.js:45-56 | a site ends with the last naming report's total if it is first with its id, else keeps its volume |
| TrafficMap.UnreportedStaysBlank | traffic-map/traffic-map.js:31-56 | a loaded site that no report names stays at 0 and is drawn with no colour and no radius |
| TrafficMap.LocationTotal | traffic-map/traffic-map.js:49-54 | the inner loop returns the report's total |
| TrafficMap.TrafficData.constructor | traffic-map/traffic-map.js:64 | the table starts empty |
| TrafficMap.TrafficData.LoadLocationData | traffic-map/traffic-map.js:31-33 | one site per record is appended, in order, at volume 0 |
| TrafficMap.TrafficData.FetchTrafficData | traffic-map/traffic-map.js:37-61 | after a failed fetch the table is unchanged; otherwise it is the aggregation of all reports |

## Definitions

The rows above list members whose contracts state something. These
functions define the source's behaviour and have no contract of their
own; the lemmas named with each characterise them.

- `CStrings.CString` (`wasm-clang/shared.js:5-13`): `DecodeSpec`, `CStringLength`, `DecodeText`, `CStringText`, `ReadStr`.
- `TarReader.ParseOctal` (`wasm-clang/shared.js:276`): `TrimStartSpec`, `DigitRunSpec`, `ParseOctalField`, `ParseRendered`.
- `Memories.Store32` and `Memories.Store64` (`wasm-clang/shared.js:105-106`): `Read32AfterWrite32`, `Write32OtherWords`, `Read64AfterWrite64`, `LittleEndianRoundTrip`.
- `Memories.Splice` (`wasm-clang/shared.js:119-129`): `SpliceBytes`, `ReadStrAfterWriteStr`.
- `Syscalls.Gathered` and `Syscalls.Total` (`wasm-clang/shared.js:196-205`): `GatheredLength`, `GatheredPair`, `GatherAbcDe`, `FillableIsTotal`, `Gather`.
- `Syscalls.Scatter` (`wasm-clang/shared.js:215-230`): `ReadTurn`, `ScatterGoesOn`, `ScatterStops`, `ScatterCursor`, `ScatterExhausted`, `ScatterUpFront`, `ScatterTotal`, `ScatterInput`.
- `TarReader.HeaderAt` (`wasm-clang/shared.js:288-308`): `HeaderKeys`, `HeaderFields`, `MemberHeader`.
- `TarReader.Archive` (how a tar writer lays out blocks; not in the source): `ReadMember`, `UntarArchive`.
- `TrafficMap.Loaded` (`traffic-map/traffic-map.js:31-33`): `LoadLocationData`, `UnreportedStaysBlank`.
- `TrafficMap.Volume` (`traffic-map/traffic-map.js:48-54`): `VolumeIsSum`, `LocationTotal`.
- `TrafficMap.Find` (`traffic-map/traffic-map.js:46`): `FindFrom`.
- `TrafficMap.Applied` and `TrafficMap.Aggregated` (`traffic-map/traffic-map.js:45-56`): `AppliedValue`, `AggregatedValue`, `AggregatedKeepsSites`, `FetchTrafficData`.

## Left out

- `sleep` and `debounceLazy`: they are about timing and mutual exclusion across `await`s.
- The `API` class, `App`, `ProcExit`, `NotImplemented`, `getInstance`, `getImportObject` and `msToSec`. They are module fetching, compilation, instantiation, timing and logging, over modules whose code is not part of this model.
- The node table of memfs lives inside the filesystem module's own code. That code is not part of this model.
  - `addFile` and `addDirectory` therefore record a node in the `nodes` log of `MemFS`.
  - `getFileContents` is not modelled.
  - The byte copies that `addFile` and `addDirectory` make into the module's memory are not modelled.
- The compilation and instantiation in the `MemFS` constructor, and the `init` call. The constructor starts from the instantiated module's memory.
- The host's output callback `hostWrite` and `console.log`. They are the `written` and `logged` logs. `readEntry`'s `console.log('type', …)` before its assertion is not modelled.
- `wasm-clang/shared_web.js` and `wasm-clang/worker.js` are not part of this model.
- Memory growth (`WasmMemory.Grow`) is the guest's action. It detaches the old buffer and keeps the old bytes, with new zero pages. It is modelled as an environment step only.
- The `Uint32Array` overlay is read as little-endian, as on every platform browsers run on.
- JavaScript numbers are modelled as unbounded integers.
  - Offsets, lengths and volumes above 2^53 do not lose precision in the model.
  - `NaN` is modelled only where the code produces it: a `parseInt` with no digits, and the tar cursor after it.
  - A negative zero from `parseInt("-0", 8)` is 0.
- `read8`, `readStr` and the other accessors take integer offsets. A fractional or non-numeric offset is not modelled.
- Syscalls.MemFS.HostWrite: requires the iovec table to lie inside the guest memory. Outside it `read32` gives `undefined` descriptors, which the model does not follow.
- Syscalls.MemFS.HostRead: requires the iovec table to lie inside the guest memory, for the same reason.
- Syscalls.Gather and Syscalls.ScatterInput: the same requirement as the syscalls that call them.
- TarReader.Tar.Untar: replays at most `fuel` entries, while the source's loop is unbounded.
  - `UntarEnds` shows that `fuel` is no restriction for archives of sane sizes.
  - `UntarRepeats` shows an archive on which the source's loop never ends.
- TarReader.Tar.UntarEntry: takes the number of rounds left as a ghost argument, which only ties the round to the replay function.
- In `traffic-map.js`, the following are input/output and rendering, and are not modelled:
  - the `fetch` calls and JSON decoding;
  - the error path's `console.error`;
  - the global `traffic`;
  - the Leaflet map, markers and popups.
- The coordinates `lat` and `lon` are floating point and are not kept in the model's sites.
- Volumes are integers, ids and device names are strings, and `===` on them is string equality.
- A failed fetch, a bad status or undecodable JSON is one `None` response, since all three end in the same `catch`.
- TrafficMap.TrafficData.FetchTrafficData: each report is typed with a device name and a list of readings. A response element that names a known site but has no `values` makes `forEach` throw inside the `try`. The sites updated before it keep their new totals. The model does not express that partial update.
- TrafficMap.TrafficData.FetchTrafficData: the sites are values in a sequence rather than shared objects. `entry.value = total` is modelled as replacing the site `find` returns. Nothing else in the code aliases those objects.

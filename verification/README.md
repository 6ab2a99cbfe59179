# Chunked upload to a ledger-backed file store — a Dafny model

This project models the upload core of a small web front end that stores files in
an on-chain chunk store (a contract reached through a browser wallet). An upload
(`request`) reads the file, splits anything above 475 KiB into a fixed number of
pieces (`bufferChunk`), and walks the pieces in order. For each piece it reads the
digest the store already holds (`getChunkHash`). An unchanged piece is skipped.
A changed piece is written with `writeChunk`, paying a fee computed once from the
file size. The walk stops at the first write that throws or is mined with a falsy
status. Success reports the file's public URL; failure reports a generic error.
The profile page's listing (`getUploadByAddress`) zips three parallel arrays into
records, and `deleteFile` passes the removal receipt's status through.

Modules, one per concern:

- `Chunker` (chunker.dfy): `bufferChunk` as `BufferChunk`/`Slices` and the size
  branch of `request` as `SplitFile`. Bytes are `seq<byte>`.
- `Fee` (fee.dfy): the fee as an integer function `ChunkCost(fileSize, n)`. It is
  proved equal to the JavaScript formula evaluated on exact reals, `RealCost(fileSize / n)`.
- `Remote` (remote.dfy): the result of submitting a transaction and awaiting it.
- `Upload` (upload.dfy): the chunk loop `Loop`, and `Upload` for the whole of `request`.
- `Profile` (profile.dfy): `UploadsByAddress` and `DeleteFile`.
- `Arith` (arith.dfy): two multiplication/division facts the proofs share.

Abstractions:

- The remote store is a `map<nat, D>` from chunk index to the digest
  `getChunkHash` reports. An index outside the map stands for a `getChunkHash`
  call that throws.
- The content digest (Keccak-256) is a function parameter `digest: Bytes -> D`.
- Write results come from an oracle `nat -> TxResult`, indexed by chunk.
- A confirmed write makes the store hold the chunk's digest. A rejected or
  throwing write leaves the store unchanged.
- The wallet/signer check is a boolean `hasSigner`.
- The file's size is the length of its content.
- `getChunkHash` is called outside the `try` in `request`. When it throws, the
  exception escapes and neither callback fires; this is the third outcome `Unhandled`.

Behaviour of the code worth noting:

- `bufferChunk` cuts at ceil(len/n) bytes, so for some inputs it returns fewer than n pieces (Chunker.NineBytesFourPieces). In `request` this never happens: with n = ceil(size/475 KiB) the piece count is always exactly n, and only the last piece can be shorter (Chunker.LargeFilePieceCount). So the fee's effective size, size/n, is the mean chunk length.
- A hash read that throws is not turned into an `onError` report, as noted above.
- `getUploadByAddress` does not compare the lengths of the three arrays.

## Model

| member | source | states |
|---|---|---|
| Chunker.CeilDivBounds | src/utils/request.js:37 | `Math.ceil(a / b)` on integers is the least q with q·b ≥ a |
| Chunker.Slices | src/utils/request.js:38-40 | consecutive slices of a fixed width: they concatenate back to the buffer, there are ceil(len/width) of them, each is non-empty, all but the last are exactly `width` long |
| Chunker.PieceCountBound | src/utils/request.js:37-40 | cutting at ceil(len/n) gives at most n pieces, and exactly n when len > n·(n−1) |
| Chunker.BufferChunk | src/utils/request.js:33-42 | `bufferChunk` round-trips (the pieces concatenate to the input); an empty buffer gives no pieces; otherwise 1..n pieces, ceil(len / ceil(len/n)) of them, each non-empty, all but the last of length ceil(len/n) |
| Chunker.SplitFile | src/utils/request.js:62-71 | up to 475·1024 bytes: exactly one chunk equal to the whole content, divisor 1; above: `bufferChunk` with n = ceil(size/(475·1024)) ≥ 2, giving exactly n chunks; always a round trip, and no chunk exceeds 475 KiB |
| Chunker.LargeFilePieceCount | src/utils/request.js:65-67 | for every size above 475 KiB, the n = ceil(size/475 KiB) that `request` passes gives pieces of at most 475 KiB, and exactly n of them |
| Chunker.NineBytesFourPieces | src/utils/request.js:33-42 | the count is not always met: 9 bytes with n = 4 give 3 pieces of 3 bytes |
| Fee.ChunkCost | src/utils/request.js:77-80 | the fee is 0 exactly when the effective size fileSize/n is at most 24·1024−326 |
| Fee.ChunkCostIsFloor | src/utils/request.js:79 | above the free ceiling the fee is the floor of (fileSize/n + 326)/24576 |
| Fee.CostMatchesRealFormula | src/utils/request.js:77-80 | the integer fee equals the JavaScript expression evaluated on the exact real effective size |
| Fee.CostMonotone | src/utils/request.js:77-80 | for the same divisor, a larger file never pays a smaller fee |
| Fee.RealCost | src/utils/request.js:77-80 | the fee formula on a real effective size: 0 exactly up to 24·1024−326, above that at least 1 and the floor of (size + 326)/24576 |
| Fee.RealCostMonotone | src/utils/request.js:77-80 | the fee formula is non-negative and non-decreasing in the effective size |
| Fee.CostMonotoneInEffectiveSize | src/utils/request.js:68-80 | comparing effective sizes compares fees, whatever the two divisors |
| Fee.WeiValue | src/utils/request.js:92 | `parseEther(cost)`: the wei amount is a whole multiple of 10¹⁸ and dividing it back gives the cost |
| Remote.Confirmed | src/utils/request.js:95-98 | a write counts as done only when `tx.wait()` returns a receipt with a truthy status; a falsy status or a throw aborts the loop |
| Upload.StoredName | src/utils/request.js:60 | the stored name is the directory path followed directly by the file name, no separator |
| Upload.PublicUrl | src/utils/request.js:107 | the URL starts with `https://galileo.web3q.io/`, then the contract address, and ends with the stored name |
| Upload.JobFor | src/utils/request.js:63-80 | one upload's chunks and fee: the chunks concatenate to the file, there are n of them, and the single wei value is a whole number of ether, 0 exactly when size/n is within the free ceiling |
| Upload.Loop | src/utils/request.js:73-105 | the loop reads chunk hashes in index order from its start index, all the way to the last chunk when it completes, else up to and including the chunk it stops at |
| Upload.LoopWritesOnlyChanged | src/utils/request.js:81-93 | only chunks whose digest differs from the stored one are written, each with its own bytes and the single fee value |
| Upload.LoopWritesEveryChange | src/utils/request.js:82-93 | every changed chunk whose hash was read is written; a skip happens only when the digests are equal |
| Upload.LoopWritesFollowQueries | src/utils/request.js:75-93 | a chunk is written only after its hash was read, and the writes go in strictly increasing chunk order |
| Upload.LoopProgress | src/utils/request.js:89-104 | progress names every write except a failing last one, with the chunk index, strictly increasing, only for confirmed writes; an abort is at the last write, which was not confirmed |
| Upload.LoopStore | src/utils/request.js:91-100 | the store changes exactly at the confirmed writes, to the chunk's digest; every other entry is unchanged |
| Upload.LoopStopsAtFirstHalt | src/utils/request.js:75-105 | the loop completes iff no chunk halts it (unreadable hash, or a changed chunk whose write is not confirmed); otherwise it stops at the first such chunk, and the stop counts as escaped iff that chunk's hash read threw |
| Upload.CompletedLoopStoresAll | src/utils/request.js:75-105 | after a completed loop the store holds every chunk's digest |
| Upload.CurrentStoreMeansNoWrites | src/utils/request.js:82-87 | when the store already holds every chunk's digest, the loop completes with no write, no progress and no store change |
| Upload.Upload | src/utils/request.js:44-112 | a missing signer gives `onError("Can't find metamask")` before any chunk work; hashes are read from chunk 0 in order; success carries `https://galileo.web3q.io/` + address + `:3334/` + dirPath + fileName; the only other error is `upload request failed!` |
| Upload.UploadWrites | src/utils/request.js:76-93 | every write carries its chunk's bytes and the same wei value, `ChunkCost(size, n)`·10¹⁸, whatever its index; a chunk is written iff its hash was read and differs from the stored one; writes go in strictly increasing chunk order |
| Upload.UploadProgress | src/utils/request.js:95-100 | `onProgress` fires once per confirmed write with the chunk index, in strictly increasing order; a failing write gets no progress event |
| Upload.UploadSucceeds | src/utils/request.js:106-108 | an upload succeeds iff no chunk halts the loop, and then the store holds every chunk's digest |
| Upload.UploadFails | src/utils/request.js:82-111 | a failed upload ends at the first halting chunk k, the last hash read; if that read threw, neither callback fires; otherwise `onError` fires and k's unconfirmed write was the last one |
| Upload.UploadIdempotent | src/utils/request.js:82-87 | re-uploading after a success writes nothing, emits no progress, leaves the store as it was and succeeds with the same URL, whatever writes would return |
| Upload.UploadResumes | src/utils/request.js:82-108 | with every hash readable and every write confirmed, an upload succeeds, whatever the store held before (so a re-run completes a partial upload) |
| Upload.UploadAbortsAtFirstFailure | src/utils/request.js:89-110 | when chunk k is the first changed chunk whose write fails, the outcome is `onError`, k's write is the last one, no chunk past k is written, and exactly the hashes of chunks 0..k are read |
| Upload.MillionByteExample | src/utils/request.js:63-80 | a 1,000,000-byte file is split 3 ways into 3 chunks with a fee of 13 per chunk |
| Profile.UploadsByAddress | src/utils/profile.js:4-21 | one record per url, in index order: time = times[i]·1000 ms, name = names[i], url = urls[i], showProgress false; unzipping gives back the input arrays (cut to the url count) |
| Profile.DeleteFile | src/utils/profile.js:23-28 | `deleteFile` returns the removal receipt's status unchanged, and raises exactly when the removal call throws |
| Profile.DeleteReportsConfirmation | src/utils/profile.js:23-28 | the returned status is truthy exactly when the removal is confirmed; a removal mined with status 0 and not raised returns 0 |

## Left out

- `FileContract`, the wallet provider and the signer lookup (src/utils/request.js:17-21, 52): browser wallet plumbing. The signer check is the boolean `hasSigner`.
- `readFile` (src/utils/request.js:23-31): browser file I/O. The content is an input byte sequence, and `rawFile.size` is taken to be its length.
- Keccak-256, `stringToHex`, the hex encoding of chunk data, and `parseEther`: foreign library code. The digest is a parameter. The hex-encoded name is not modelled, because the store map already belongs to one file name. The wei value is modelled as cost × 10¹⁸.
- Transaction submission, `tx.wait()` and confirmation timing: asynchronous network behaviour. They are replaced by the `TxResult` oracle. A write that throws after it was mined is treated as leaving the store unchanged.
- `Mined(Receipt(0))`, a mined transaction with a falsy status that `wait()` returns, is an over-approximation. With the ethers v5 provider the code uses, `wait()` normally rejects a reverted transaction with `CALL_EXCEPTION`, so it shows up as `Threw`. In `request` both cases abort the same way. For `deleteFile`, a reverted removal most likely raises rather than returning 0.
- Callbacks that throw: `onSuccess`, `onError` and `onProgress` are assumed to return normally. In the code, `onProgress` is called inside the `try`. If it throws after a confirmed write, the `catch` sets the failure flag and leaves the loop, and `onError` fires even though that write already changed the store. The model instead continues after every confirmed write. An exception from `onSuccess` or `onError` would propagate to the caller.
- Chunker.BufferChunk: requires n ≥ 1. `request` always passes n ≥ 2. With n = 0 the JavaScript slices up to `Infinity`, and the result depends on the `Buffer` implementation.
- Fee.ChunkCost: uses exact rational arithmetic where the JavaScript uses IEEE-754 double division. `floor` of a rounded quotient can differ from the exact one when the quotient sits just below an integer.
- Profile.UploadsByAddress: requires at least as many times and names as urls. The JavaScript reads past the end of a shorter array and gets `undefined`. JavaScript `Date` range limits and `parseInt` on very large numbers are not modelled. Time is an integer number of milliseconds.
- `console.log` lines, the unused ABI entries, and the listing's missing `getAuthorFiles` ABI entry and `FileContract` export: logging and wiring, not logic.
- The progress event's `{percent: index}` wrapper: progress is recorded as the bare chunk index.

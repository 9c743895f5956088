# pixel — a Dafny model of the image-to-chunks backend

The backend takes an uploaded image and reads the decoder's raw buffer as it is, four
bytes per pixel. It turns every sample whose alpha byte is not zero into a `{x, y, color}` entry, where `color` is `#rrggbb`. It
distributes those entries over five chunks and stores them in `codes.json` under a random
15-character access code. Clients later fetch one chunk at a time by code and index. They
can also switch a code's status from `created` to `active`.

This project models that core as pure Dafny functions and methods and proves their
properties. It has seven modules:

- `Maybe` (`maybe.dfy`): the optional value used for absent query parameters.
- `Hex` (`hex.dfy`): `rgbToHex`, built from `toString(16)` and `padStart(2, '0')`. An
  independent parser is proved to be its inverse.
- `AccessCode` (`access_code.dfy`): `generateCode`. The random source is an oracle of draws
  in `[0, 36)`.
- `Extract` (`extract.dfy`): the loop of `extractPixels` over the raw buffer, four bytes per
  pixel. `ImagePixels` is a row-by-row reference reading of it.
- `Channels` (`channels.dfy`): the channel layout of the decoder's raw buffer. The source
  reads four bytes per pixel, but the buffer of an image without alpha has three. The
  module shows what the source does with such a buffer. It also defines the widening to
  RGBA that is proposed as the correction (see "Findings"). The source itself never
  widens.
- `Chunks` (`chunks.dfy`): `splitChunks`. Item `i` goes to chunk `i % n` at position
  `i / n`. `Interleave` reads the chunks back round by round and is proved to invert the
  split.
- `Store` (`store.dfy`): the `/upload`, `/getChunks` and `/activate` handlers. Each one is
  an operation on a map from code to record and returns the HTTP status and JSON body it
  answers with.

Some facts about the code that a reader might not expect:

- `splitChunks` is round-robin by index, not a split into contiguous slices. Concatenating
  the chunks does not give the pixel list back. Reading them back round by round does,
  and that round trip is what the model proves.
- No resize step runs before extraction. The `size` field of the upload is parsed and then
  never used.
- `/upload` answers only `{ code }`, and `/getChunks` answers only `{ pixels }`.
- A stored record has no creation timestamp.

## Model

| member | source | states |
|---|---|---|
| AccessCode.GenerateCode | backend/utils.js:10-15 | the code has the requested length and uses only `A-Z0-9`; character `i` is `Alphabet[draws[i]]`, and the draw can be recovered from it |
| AccessCode.GenerateCodeInjective | backend/utils.js:11-13 | two codes are equal exactly when their first `length` draws are equal |
| AccessCode.AlphabetIndex | backend/utils.js:11 | every code character sits in the 36-character alphabet at the computed index |
| Hex.ToBase16Parse | backend/utils.js:52 | `toString(16)` prints lower-case hex digits that read back as the value; the output is one digit exactly when the value is below 16, with no leading zero otherwise |
| Hex.ChannelHexDigits | backend/utils.js:52 | a padded channel is always two digits, high nibble first |
| Hex.RgbToHexShape | backend/utils.js:51-53 | `rgbToHex` always produces `#` followed by six lower-case hex digits |
| Hex.ParseRgbToHex | backend/utils.js:51-53 | parsing `rgbToHex(r, g, b)` gives back `(r, g, b)` |
| Hex.RgbToHexInjective | backend/utils.js:51-53 | two colours print the same exactly when all three channels agree |
| Hex.RgbToHexParse | backend/utils.js:51-53 | every `#rrggbb` string with lower-case digits is what `rgbToHex` prints for the value parsed from it |
| Extract.ScanSample | backend/utils.js:30-38 | one inner step reads the buffer at `(y * width + x) * 4` within bounds and appends `{x, y, color}` exactly when the alpha byte is non-zero |
| Extract.ScanRow | backend/utils.js:29-39 | the inner loop appends the entries of row `y` to what came before |
| Extract.ExtractPixels | backend/utils.js:22-42 | there is an entry at `(x, y)` exactly when that sample's alpha is non-zero; each entry carries the colour of its sample's RGB bytes; entries are in strict row-major order, so no position repeats; there are at most `width * height` of them; width and height are passed through |
| Extract.ImagePixelsSpec | backend/utils.js:28-40 | the row-by-row reference reading is faithful, complete for non-transparent samples, row-major, and bounded by `width * height` |
| Extract.RowPixelsComplete | backend/utils.js:29-39 | every non-transparent sample of a row has an entry in that row's output |
| Extract.RowPixelsOrdered | backend/utils.js:29-39 | a row's entries go strictly left to right |
| Extract.ImagePixelsPositions | backend/utils.js:28-40 | every entry lies inside the image |
| Extract.SampleInBuffer | backend/utils.js:30-34 | all four bytes of an in-image sample lie inside a buffer of `4 * width * height` bytes |
| Extract.OffsetIsRowMajor | backend/utils.js:30 | the row-by-row offset equals `(y * width + x) * 4` |
| Extract.AlphaDecidesPresenceOnly | backend/utils.js:34-38 | images that differ only in non-zero alpha values, with zero alphas in the same places, extract to the same entries |
| Channels.RgbBufferOverrun | backend/utils.js:25-34 | as written, reading a three-channel buffer of two or more pixels at four bytes per pixel reads the last sample's blue byte past the end of the buffer |
| Channels.RedGreenMisread | backend/utils.js:30-36 | as written, the opaque red pixel of a 2 by 1 red-green image without alpha is read with alpha 0 (green's red byte), and the green pixel's blue byte lies past the end |
| Channels.ToRgba | backend/utils.js:25 | the widened buffer has four bytes per pixel and the same size, and a four-channel buffer is kept as it is |
| Channels.RgbSampleOpaque | backend/utils.js:30-34 | after widening, every sample of an image without alpha is opaque and keeps the colour of its pixel's three bytes |
| Channels.RgbImageFullyPresent | backend/utils.js:22-42 | extracting from a widened image without alpha gives an entry at every position, each with the colour of its pixel's three bytes |
| Chunks.SplitChunks | backend/utils.js:61-67 | `splitChunks` always returns exactly `n` chunks |
| Chunks.SplitChunksPlacement | backend/utils.js:62-65 | item `i` sits in chunk `i % n` at position `i / n`; an empty input gives `n` empty chunks |
| Chunks.SplitChunksIsSplit | backend/utils.js:61-67 | the result is the round-robin split: chunk `j` has as many items as there are indices `j` modulo `n`, and its `k`-th item is `p[k * n + j]` |
| Chunks.IsSplitUnique | backend/utils.js:61-67 | the round-robin split of an input into `n` chunks is unique |
| Chunks.SplitChunksBalanced | backend/utils.js:63-65 | chunk sizes never grow with the chunk index and differ by at most one |
| Chunks.SplitChunksTotal | backend/utils.js:63-65 | the chunk sizes add up to the input length, so nothing is lost or duplicated |
| Chunks.SplitChunksRoundTrip | backend/utils.js:61-67 | reading the chunks back round by round reproduces the input exactly |
| Chunks.InterleaveOfSplit | backend/utils.js:61-67 | any round-robin split reads back to its input |
| Chunks.HeadsOfSplit | backend/utils.js:64 | the first round of a split reads the first `min(n, length)` items in order |
| Chunks.TailsOfSplit | backend/utils.js:64 | what a round leaves is the round-robin split of the remaining items |
| Chunks.ChunkSizeNext | backend/utils.js:64 | pushing item `i` grows chunk `i % n` by one and leaves the other chunks unchanged in size |
| Store.StoreUpload | backend/server.js:41-54 | the success path stores, under a 15-character code built from the draws, a `created` record holding the five round-robin chunks of the extracted pixels; every other code keeps its record, and the store grows by one entry exactly when the code was not already in use |
| Store.HandleUpload | backend/server.js:35-61 | no file gives 400 and decode failure gives 500, both without writing; a three-channel buffer of two or more pixels also gives 500 without writing, because the four-byte reading runs past its end and throws; any other upload is stored as `Store.StoreUpload` states and answered with `{ code }` |
| Channels.SmallRgbAsWritten | backend/utils.js:28-38 | as written, a three-channel buffer of at most one pixel extracts like its widened form: nothing for no pixel, and for one pixel a single entry with the colour of its three bytes, since the alpha read one past the end is `undefined`, which is not 0 |
| Store.HandleUploadWithAlpha | backend/server.js:35-61 | the corrected handler: the same 400 and 500 answers for a missing or undecodable file, but every decoded upload, whatever its channel count, is stored from its widened buffer and answered with `{ code }` |
| Store.GetChunks | backend/server.js:64-75 | 400 exactly for a missing or empty code or a missing chunk index, 404 exactly for an unknown code; otherwise the stored chunk, or `[]` when the index is outside the stored chunks |
| Store.Activate | backend/server.js:78-89 | 400 for a missing or empty code and 404 for an unknown one, both without writing; otherwise the same codes are kept and the named record becomes active |
| Store.ActivateOnlyStatus | backend/server.js:85 | activation changes only the status field of the named record |
| Store.ActivateIdempotent | backend/server.js:78-89 | activating twice has the same effect and answer as activating once |
| Store.GetChunksIgnoresStatus | backend/server.js:64-75 | chunk lookups answer the same before and after an activation |
| Store.NewRecordWellFormed | backend/server.js:41-53 | an uploaded record holds five chunks, records five, forms a round-robin split, and all its pixels lie inside the recorded size |
| Store.HandlersPreserveWellFormed | backend/server.js:47-53 | upload and activation keep every record of the store well formed |
| Store.UploadThenFetch | backend/server.js:41-54 | after an upload, fetching chunks 0 to 4 succeeds and reading them back round by round gives exactly the extracted pixels; any other index gives `[]` |

## Left out

- Image decoding by `sharp` (format handling, metadata, `toBuffer`) is not part of this
  model. An upload arrives as `Decoded(buffer)` with its width, height, channel count and
  raw bytes. The buffer must hold three or four bytes per pixel. One- and two-channel
  (grey) buffers are not modelled. A decoder failure is the `Undecodable` case.
- `Math.random` and `Math.floor` are replaced by the draw oracle `draws`. Floating point is
  not modelled.
- File-system access, multer storage, express routing, CORS, static files and `listen` are
  not modelled. `codes.json` is a map value passed in and returned.
- Failures of `JSON.parse` and of file reads and writes are not modelled. In `/upload` they
  would answer 500 like a decode failure. In `/getChunks` and `/activate` they would escape
  to express.
- The `size` field parsed at backend/server.js:40 is never used by the handler and is not
  modelled.
- Concurrent requests are not modelled: two uploads racing on the read-modify-write of
  `codes.json` can lose one of the writes.
- `parseInt` of the chunk parameter is abstracted to `Option<int>`. `None` stands for
  `NaN`; its prefix-parsing rules are not modelled.
- A query parameter given several times (an array in express) is not modelled. Codes are
  strings.
- Lookups of codes that name `Object.prototype` members (`constructor`, `__proto__`) are not
  modelled. The model's map holds only stored codes.
- HTTP headers are not modelled. Each response is its status code together with the JSON
  body or error text.
- Chunks.SplitChunks: requires `numChunks > 0`. The handler always passes 5. With 0 the
  source would push onto an undefined chunk and throw on non-empty input.
- Store.HandleUpload: the collision of a freshly drawn code with an existing one is not
  excluded. The source does not check for it, so the existing record is overwritten and
  the store keeps its size, as the contract's last clause states.
- The frontend (`frontend/main.js`) is not part of this model.

## Findings

| source | as written | input that shows it | evidently intended | confidence | as-written member | corrected member |
|---|---|---|---|---|---|---|
| backend/utils.js:25-38 | the loop reads four bytes per pixel at `(y * width + x) * 4`, but the raw buffer of an image without an alpha channel has three | a 2 by 1 opaque image without alpha, red then green, bytes `ff 00 00 00 ff 00`: the red pixel's alpha is read from green's red byte (0), so it is skipped; the green pixel's blue and alpha bytes lie past the end, so `undefined.toString(16)` throws and the upload answers 500 (`Channels.RedGreenMisread`, and `Channels.RgbBufferOverrun` for every such buffer of two or more pixels) | the buffer has an alpha byte per pixel, as the comment on line 25 says; an image without alpha is read as opaque, so the upload is stored and every pixel is emitted with its own colour (`Channels.RgbImageFullyPresent`) | medium; not executed; rests on the decoder returning three channels for images without alpha | Store.HandleUpload | Store.HandleUploadWithAlpha |

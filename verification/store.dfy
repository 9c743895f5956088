/**
  The three request handlers of backend/server.js, with `data/codes.json` abstracted as a
  map from access code to record. Each handler reads the map, may return an error, and
  otherwise answers a JSON body and possibly writes back an updated map.

  File and HTTP plumbing is left out: an upload arrives as its decoded raster (or as the
  reason there is none), query parameters arrive as optional values, and a response is its
  status code together with the body that carries information.
 */
module Store {
  import opened Maybe
  import opened AccessCode
  import opened Extract
  import opened Chunks
  import opened Channels

  /** `'created'` after an upload, `'active'` after an activation. */
  datatype Status = Created | Active

  /** One entry of `codes.json`: `{status, width, height, chunks, pixels}`. */
  datatype Record = Record(status: Status, width: nat, height: nat, chunks: nat, pixels: seq<seq<Pixel>>)

  /** The whole of `codes.json`. */
  type Codes = map<string, Record>

  /** The number of chunks the upload handler asks `splitChunks` for. */
  const NumChunks: nat := 5

  /** The multipart file field `image` as the handler sees it after decoding. */
  datatype Upload =
    | NoFile                  // `req.file` is absent
    | Undecodable             // the image decoder throws
    | Decoded(buf: Buffer)    // width, height and raw bytes of the decoded image

  /** The JSON bodies of successful responses. */
  datatype Body =
    | CodeBody(code: string)            // `{ code }`
    | PixelsBody(pixels: seq<Pixel>)    // `{ pixels }`
    | MessageBody(message: string)      // `{ message }`

  /** A successful answer (status 200) or an error status with its `{ error }` text. */
  datatype Response = Ok(body: Body) | Error(status: nat, message: string)

  /** The record an upload of `img` stores, before its code is known. */
  function NewRecord(img: Raster): (rec: Record)
    requires Valid(img)
  {
    Record(Created, img.width, img.height, NumChunks, SplitChunks(ImagePixels(img, img.height), NumChunks))
  }

  /**
    The success path of backend/server.js `POST /upload` for a four-byte-per-pixel raster:
    extracts the pixels, splits them into five chunks, draws a 15-character code and stores
    a `created` record under it. A record that already had that code is replaced, so the
    store grows by one entry exactly when the code is new. Every other code keeps its record.
   */
  method StoreUpload(codes: Codes, img: Raster, draws: seq<int>) returns (codes': Codes, code: string)
    requires Valid(img)
    requires ValidDraws(draws, CodeLength)
    ensures IsCode(code, CodeLength)
    ensures forall i :: 0 <= i < CodeLength ==> code[i] == Alphabet[draws[i]]
    ensures code in codes' && codes'[code] == NewRecord(img)
    ensures forall c :: c != code ==> (c in codes' <==> c in codes)
    ensures forall c :: c != code && c in codes ==> codes'[c] == codes[c]
    ensures |codes'| == if code in codes then |codes| else |codes| + 1
  {
    var pixels, width, height := ExtractPixels(img);
    var chunks := SplitChunks(pixels, NumChunks);
    code := GenerateCode(CodeLength, draws);
    codes' := codes[code := Record(Created, width, height, NumChunks, chunks)];
  }

  /**
    backend/server.js `POST /upload`, reading the decoded buffer as it is. Without a file the
    handler answers 400 and writes nothing. When decoding fails, its catch answers 500 and
    writes nothing.

    The pixel loop reads four bytes per pixel whatever the channel count. For a
    three-channel buffer of two or more pixels it therefore reads the last blue byte past
    the end (`Channels.RgbBufferOverrun`). `undefined.toString(16)` throws there, and the
    catch answers 500 without writing. A three-channel buffer of at most one pixel reads
    like its widened form (`Channels.SmallRgbAsWritten`). Every other upload is stored by
    `StoreUpload` and answered with `{ code }`.
   */
  method HandleUpload(codes: Codes, file: Upload, draws: seq<int>) returns (codes': Codes, resp: Response)
    requires file.Decoded? ==> WellSized(file.buf)
    requires ValidDraws(draws, CodeLength)
    ensures file.NoFile? ==> codes' == codes && resp == Error(400, "No file uploaded")
    ensures file.Undecodable? ==> codes' == codes && resp == Error(500, "Server error")
    ensures file.Decoded? && file.buf.channels == 3 && 2 <= Area(file.buf.width, file.buf.height) ==>
      codes' == codes && resp == Error(500, "Server error")
    ensures file.Decoded? && (file.buf.channels == 4 || Area(file.buf.width, file.buf.height) <= 1) ==>
      && resp.Ok? && resp.body.CodeBody?
      && IsCode(resp.body.code, CodeLength)
      && (forall i :: 0 <= i < CodeLength ==> resp.body.code[i] == Alphabet[draws[i]])
      && resp.body.code in codes'
      && codes'[resp.body.code] == NewRecord(ToRgba(file.buf))
      && (forall c :: c != resp.body.code ==> (c in codes' <==> c in codes))
      && (forall c :: c != resp.body.code && c in codes ==> codes'[c] == codes[c])
      && |codes'| == if resp.body.code in codes then |codes| else |codes| + 1
  {
    match file
    case NoFile =>
      codes', resp := codes, Error(400, "No file uploaded");
    case Undecodable =>
      codes', resp := codes, Error(500, "Server error");
    case Decoded(buf) =>
      if buf.channels == 3 && 2 <= Area(buf.width, buf.height) {
        codes', resp := codes, Error(500, "Server error");
      } else {
        var code;
        codes', code := StoreUpload(codes, ToRgba(buf), draws);
        resp := Ok(CodeBody(code));
      }
  }

  /**
    The upload handler with the correction proposed under "Findings": the decoded buffer is
    widened to RGBA before the pixel loop reads it. Every decoded upload is then stored and
    answered with `{ code }`, whatever its channel count.
   */
  method HandleUploadWithAlpha(codes: Codes, file: Upload, draws: seq<int>) returns (codes': Codes, resp: Response)
    requires file.Decoded? ==> WellSized(file.buf)
    requires ValidDraws(draws, CodeLength)
    ensures file.NoFile? ==> codes' == codes && resp == Error(400, "No file uploaded")
    ensures file.Undecodable? ==> codes' == codes && resp == Error(500, "Server error")
    ensures file.Decoded? ==>
      && resp.Ok? && resp.body.CodeBody?
      && IsCode(resp.body.code, CodeLength)
      && (forall i :: 0 <= i < CodeLength ==> resp.body.code[i] == Alphabet[draws[i]])
      && resp.body.code in codes'
      && codes'[resp.body.code] == NewRecord(ToRgba(file.buf))
      && (forall c :: c != resp.body.code ==> (c in codes' <==> c in codes))
      && (forall c :: c != resp.body.code && c in codes ==> codes'[c] == codes[c])
      && |codes'| == if resp.body.code in codes then |codes| else |codes| + 1
  {
    match file
    case NoFile =>
      codes', resp := codes, Error(400, "No file uploaded");
    case Undecodable =>
      codes', resp := codes, Error(500, "Server error");
    case Decoded(buf) =>
      var code;
      codes', code := StoreUpload(codes, ToRgba(buf), draws);
      resp := Ok(CodeBody(code));
  }

  /**
    backend/server.js `GET /getChunks`. A missing or empty code, or a chunk index that does
    not parse as an integer, answers 400; an unknown code answers 404. Otherwise the answer
    is the stored chunk at that index, or the empty list when the index is negative or past
    the stored chunks. The store is only read.
   */
  function GetChunks(codes: Codes, code: Option<string>, chunk: Option<int>): (resp: Response)
    ensures resp.Error? <==> code.None? || code.value == "" || chunk.None? || code.value !in codes
    ensures resp.Error? ==> resp.status == (if code.None? || code.value == "" || chunk.None? then 400 else 404)
    ensures resp.Ok? ==> resp.body.PixelsBody?
    ensures resp.Ok? && 0 <= chunk.value < |codes[code.value].pixels| ==> resp.body.pixels == codes[code.value].pixels[chunk.value]
    ensures resp.Ok? && !(0 <= chunk.value < |codes[code.value].pixels|) ==> resp.body.pixels == []
  {
    if code.None? || code.value == "" || chunk.None? then Error(400, "Invalid parameters")
    else if code.value !in codes then Error(404, "Code not found")
    else
      var stored := codes[code.value].pixels;
      var i := chunk.value;
      Ok(PixelsBody(if 0 <= i < |stored| then stored[i] else []))
  }

  /** The store after a handler together with the handler's response. */
  datatype Outcome = Outcome(codes: Codes, resp: Response)

  /**
    backend/server.js `POST /activate`. A missing or empty code answers 400 and an unknown
    code 404, both without writing; otherwise the record's status becomes `active` and the
    handler answers `{ message }`.
   */
  function Activate(codes: Codes, code: Option<string>): (out: Outcome)
    ensures out.resp.Error? ==> out.codes == codes
    ensures out.resp.Error? <==> code.None? || code.value == "" || code.value !in codes
    ensures out.resp.Error? ==> out.resp.status == (if code.None? || code.value == "" then 400 else 404)
    ensures out.resp.Ok? ==> out.codes.Keys == codes.Keys && out.codes[code.value].status == Active
  {
    if code.None? || code.value == "" then Outcome(codes, Error(400, "Code required"))
    else if code.value !in codes then Outcome(codes, Error(404, "Code not found"))
    else
      var c := code.value;
      Outcome(codes[c := codes[c].(status := Active)], Ok(MessageBody("Code activated")))
  }

  /** Activation touches only the status of the named record: its other fields and all other records stay as they were. */
  lemma ActivateOnlyStatus(codes: Codes, code: Option<string>)
    ensures var out := Activate(codes, code);
      forall c :: c in codes ==>
        && c in out.codes
        && out.codes[c].(status := codes[c].status) == codes[c]
        && (code.None? || c != code.value ==> out.codes[c] == codes[c])
  {
  }

  /** Activating twice has the same effect as activating once, and the second answer is the first. */
  lemma ActivateIdempotent(codes: Codes, code: Option<string>)
    ensures Activate(Activate(codes, code).codes, code) == Activate(codes, code)
  {
    var once := Activate(codes, code);
    if once.resp.Ok? {
      var c := code.value;
      assert once.codes[c := once.codes[c].(status := Active)] == once.codes;
    }
  }

  /** Reads do not depend on the status: chunk lookups answer the same before and after an activation. */
  lemma GetChunksIgnoresStatus(codes: Codes, code: Option<string>, which: Option<string>, chunk: Option<int>)
    ensures GetChunks(Activate(codes, code).codes, which, chunk) == GetChunks(codes, which, chunk)
  {
  }

  /**
    The shape every record of the store keeps: five chunks, recorded as five, that are the
    round-robin split of one list of pixels, every pixel lying inside the recorded size.
   */
  predicate WellFormedRecord(rec: Record) {
    && rec.chunks == NumChunks
    && IsSplit(Interleave(rec.pixels), NumChunks, rec.pixels)
    && (forall j, k :: 0 <= j < |rec.pixels| && 0 <= k < |rec.pixels[j]| ==>
          rec.pixels[j][k].x < rec.width && rec.pixels[j][k].y < rec.height)
  }

  predicate WellFormed(codes: Codes) {
    forall c :: c in codes ==> WellFormedRecord(codes[c])
  }

  /** The chunks of a split hold only items of the input, so bounds on every pixel carry over to them. */
  lemma SplitInside(ps: seq<Pixel>, chunks: seq<seq<Pixel>>, width: nat, height: nat)
    requires IsSplit(ps, NumChunks, chunks)
    requires forall i :: 0 <= i < |ps| ==> ps[i].x < width && ps[i].y < height
    ensures forall j, k :: 0 <= j < |chunks| && 0 <= k < |chunks[j]| ==>
      chunks[j][k].x < width && chunks[j][k].y < height
  {
    forall j, k | 0 <= j < |chunks| && 0 <= k < |chunks[j]|
      ensures chunks[j][k].x < width && chunks[j][k].y < height
    {
      assert chunks[j][k] == ps[RoundStart(k, NumChunks) + j];
    }
  }

  /** A freshly uploaded record is well formed. */
  lemma NewRecordWellFormed(img: Raster)
    requires Valid(img)
    ensures WellFormedRecord(NewRecord(img))
  {
    var ps := ImagePixels(img, img.height);
    var rec := NewRecord(img);
    assert IsSplit(ps, NumChunks, rec.pixels) by { SplitChunksIsSplit(ps, NumChunks); }
    assert Interleave(rec.pixels) == ps by { SplitChunksRoundTrip(ps, NumChunks); }
    ImagePixelsPositions(img, img.height);
    SplitInside(ps, rec.pixels, rec.width, rec.height);
  }

  /** Every handler keeps the store well formed. */
  lemma HandlersPreserveWellFormed(codes: Codes, code: string, img: Raster, activated: Option<string>)
    requires WellFormed(codes) && Valid(img)
    ensures WellFormed(codes[code := NewRecord(img)])
    ensures WellFormed(Activate(codes, activated).codes)
  {
    NewRecordWellFormed(img);
  }

  /**
    After a successful upload of `img` under `code`, fetching chunks 0 to 4 returns the five
    round-robin chunks, and reading them back round by round gives exactly the extracted
    pixels; any other index returns the empty list.
   */
  lemma UploadThenFetch(codes: Codes, code: string, img: Raster, i: int)
    requires Valid(img) && code != ""
    ensures var codes' := codes[code := NewRecord(img)];
      var fetched := seq(NumChunks, j requires 0 <= j < NumChunks => GetChunks(codes', Some(code), Some(j)).body.pixels);
      && (forall j :: 0 <= j < NumChunks ==> GetChunks(codes', Some(code), Some(j)).Ok?)
      && Interleave(fetched) == ImagePixels(img, img.height)
      && (i < 0 || NumChunks <= i ==> GetChunks(codes', Some(code), Some(i)) == Ok(PixelsBody([])))
  {
    var codes' := codes[code := NewRecord(img)];
    var ps := ImagePixels(img, img.height);
    var fetched := seq(NumChunks, j requires 0 <= j < NumChunks => GetChunks(codes', Some(code), Some(j)).body.pixels);
    assert fetched == SplitChunks(ps, NumChunks);
    SplitChunksRoundTrip(ps, NumChunks);
  }
}

/** The HTTP handlers under /api/images (app/routers/images.py). Each handler calls
    the image service and turns its result into a `{success, message, data}`
    envelope, a 404 error or a file response; the handlers keep no state of their
    own. */
module ImagesRouter {
  import opened Common
  import opened FileUtils
  import ImageService

  /** The `data` member of an envelope: null, one image record or a list of them. */
  datatype Payload =
    | NoData
    | One(record: ImageService.ImageRecord)
    | Many(records: seq<ImageService.ImageRecord>)

  /** What a handler answers: a JSON envelope, an HTTP 404 with its detail text, or
      the raw bytes of a stored file under a download name and media type. */
  datatype Response =
    | Envelope(success: bool, message: Message, data: Payload)
    | NotFound(detail: Message)
    | FileResponse(path: string, filename: string, mediaType: Option<string>)

  /** The upload handler's pre-check: a content type was sent, is not empty and
      starts with "image/" (case-sensitive). */
  predicate IsImageContentType(contentType: Option<string>)
    ensures IsImageContentType(contentType) <==>
      contentType.Some? && |contentType.value| >= 6 && contentType.value[..6] == "image/"
  {
    contentType.Some? && contentType.value != "" && StartsWith(contentType.value, "image/")
  }

  /** Concrete outcomes of the content-type pre-check. */
  lemma ContentTypeExamples()
    ensures !IsImageContentType(None) && !IsImageContentType(Some(""))
    ensures !IsImageContentType(Some("text/plain")) && !IsImageContentType(Some("IMAGE/PNG"))
    ensures IsImageContentType(Some("image/png")) && IsImageContentType(Some("image/"))
  {
    assert "image/png"[..6] == "image/";
    assert "IMAGE/PNG"[..6] != "image/" by { assert "IMAGE/PNG"[0] != "image/"[0]; }
    assert "text/plain"[..6] != "image/" by { assert "text/plain"[0] != "image/"[0]; }
  }

  /** POST /api/images. A request whose content type is not an image type is refused
      before the service runs; otherwise the service's triple becomes the envelope. */
  method UploadImage(dir: ImageDir, upload: UploadFile, token: string, pos: nat,
                     outcome: WriteOutcome, now: Timestamp)
    returns (resp: Response)
    requires dir.Valid() && IsToken(token) && pos <= |dir.order|
    modifies dir
    ensures dir.Valid() && resp.Envelope?
    ensures !IsImageContentType(upload.contentType) ==>
      resp == Envelope(false, ImagesOnly, NoData) &&
      dir.order == old(dir.order) && dir.entries == old(dir.entries)
    ensures IsImageContentType(upload.contentType) ==>
      (resp.success <==>
         Accepted(upload) && Opens(old(dir.entries), StoredName(token, upload.filename), outcome) &&
         outcome.Written?)
    ensures IsImageContentType(upload.contentType) && !resp.success ==>
      resp.data == NoData &&
      resp.message == if !IsAllowedFile(upload.filename) then UnsupportedType
                      else if !IsWithinSizeLimit(|upload.content|) then TooLarge
                      else SaveFailed
    ensures IsImageContentType(upload.contentType) && resp.success ==>
      resp.message == ImageUploaded &&
      resp.data == One(ImageService.ImageRecord(
                         token, upload.filename,
                         ImageService.URL_PREFIX + StoredName(token, upload.filename),
                         |upload.content|, upload.contentType, now))
    ensures IsImageContentType(upload.contentType) &&
            Accepted(upload) && Opens(old(dir.entries), StoredName(token, upload.filename), outcome) ==>
      Stored(old(dir.order), old(dir.entries), dir.order, dir.entries,
             StoredName(token, upload.filename), BytesLeft(upload.content, outcome), pos, now)
    ensures IsImageContentType(upload.contentType) &&
            !(Accepted(upload) && Opens(old(dir.entries), StoredName(token, upload.filename), outcome)) ==>
      dir.order == old(dir.order) && dir.entries == old(dir.entries)
  {
    if !IsImageContentType(upload.contentType) {
      return Envelope(false, ImagesOnly, NoData);
    }
    var success, message, info := ImageService.UploadImage(dir, upload, token, pos, outcome, now);
    var data := if info.Some? then One(info.value) else NoData;
    return Envelope(success, message, data);
  }

  /** GET /api/images: always a successful envelope around the service's list. */
  method GetImageList(dir: ImageDir) returns (resp: Response)
    requires dir.Valid()
    ensures resp.Envelope? && resp.success && resp.message == ListFetched && resp.data.Many?
    ensures |resp.data.records| == |dir.ListFiles()|
    ensures forall k :: 0 <= k < |resp.data.records| ==>
      dir.ListFiles()[k] in dir.entries &&
      resp.data.records[k] == ImageService.StoredRecord(dir.ListFiles()[k], dir.entries[dir.ListFiles()[k]])
  {
    var images := ImageService.GetImageList(dir);
    return Envelope(true, ListFetched, Many(images));
  }

  /** GET /api/images/{id}: 404 when the id resolves to no listed name, else a
      successful envelope around the resolved name's record. */
  method GetImage(dir: ImageDir, imageId: string) returns (resp: Response)
    requires dir.Valid()
    ensures resp.NotFound? <==> forall n :: n in dir.ListFiles() ==> !StartsWith(n, imageId)
    ensures resp.NotFound? ==> resp.detail == ImageMissing
    ensures !resp.NotFound? ==>
      var target := ImageService.Resolve(dir.ListFiles(), imageId).value;
      target in dir.entries &&
      resp == Envelope(true, ImageFetched, One(ImageService.StoredRecord(target, dir.entries[target])))
  {
    var info := ImageService.GetImage(dir, imageId);
    if info.None? {
      return NotFound(ImageMissing);
    }
    return Envelope(true, ImageFetched, One(info.value));
  }

  /** GET /api/images/{id}/download: 404 when the id resolves to nothing or the
      resolved file has vanished; otherwise the stored file itself, offered under its
      stored name with the inferred mime type. */
  method DownloadImage(dir: ImageDir, imageId: string) returns (resp: Response)
    requires dir.Valid()
    ensures resp.NotFound? <==> forall n :: n in dir.ListFiles() ==> !StartsWith(n, imageId)
    ensures resp.NotFound? ==> resp.detail == ImageMissing
    ensures !resp.NotFound? ==>
      var target := ImageService.Resolve(dir.ListFiles(), imageId).value;
      target in dir.entries && dir.entries[target].isFile &&
      resp == FileResponse(PathOf(target), target, Some(ImageService.MimeOf(target)))
  {
    var info := ImageService.GetImage(dir, imageId);
    if info.None? {
      return NotFound(ImageMissing);
    }
    var record := info.value;
    var filePath := PathOf(record.filename);
    if record.filename !in dir.entries {
      return NotFound(ImageFileMissing);
    }
    return FileResponse(filePath, record.filename, record.mimeType);
  }

  /** DELETE /api/images/{id}: the service's pair in an envelope whose data is null. */
  method DeleteImage(dir: ImageDir, imageId: string, ioFails: bool) returns (resp: Response)
    requires dir.Valid()
    modifies dir
    ensures dir.Valid() && resp.Envelope? && resp.data == NoData
    ensures ImageService.Resolve(old(dir.ListFiles()), imageId).None? ==>
      !resp.success && resp.message == ImageMissing &&
      dir.order == old(dir.order) && dir.entries == old(dir.entries)
    ensures ImageService.Resolve(old(dir.ListFiles()), imageId).Some? ==>
      var target := ImageService.Resolve(old(dir.ListFiles()), imageId).value;
      resp.success == !ioFails &&
      (resp.success ==> resp.message == FileDeleted &&
                        dir.entries == old(dir.entries) - {target} &&
                        dir.order == Remove(old(dir.order), target)) &&
      (!resp.success ==> resp.message == DeleteFailed &&
                         dir.order == old(dir.order) && dir.entries == old(dir.entries))
  {
    var success, message := ImageService.DeleteImage(dir, imageId, ioFails);
    return Envelope(success, message, NoData);
  }
}

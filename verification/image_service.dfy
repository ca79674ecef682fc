/** The image service (app/services/image_service.py): uploading through the file
    utilities and describing the result, building records for stored names, and
    resolving an image id to the first listed name that starts with it. */
module ImageService {
  import opened Common
  import opened FileUtils

  /** The public URL prefix under which stored files are served. */
  const URL_PREFIX: string := "/static/images/"

  /** The dictionary the service returns for one image. `mimeType` is the client's
      declared content type for a fresh upload and the inferred type otherwise. */
  datatype ImageRecord = ImageRecord(
    id: string,
    filename: string,
    url: string,
    size: nat,
    mimeType: Option<string>,
    createdAt: Timestamp)

  /** The id of a stored name: the text before its first '.', or all of `name`. */
  function IdOf(name: string): (id: string)
    ensures StartsWith(name, id) && '.' !in id
    ensures |id| < |name| ==> name[|id|] == '.'
  {
    if name == "" || name[0] == '.' then ""
    else [name[0]] + IdOf(name[1..])
  }

  /** The id of a stored name is the token it was generated from, so uploads with
      distinct tokens get distinct ids whatever their client file names. */
  lemma IdOfStoredName(token: string, filename: string)
    requires '.' !in token
    ensures IdOf(StoredName(token, filename)) == token
  {
    var name := StoredName(token, filename);
    var id := IdOf(name);
    assert name[|token|] == '.';
  }

  /** The mime type of a stored name: a case-sensitive `endswith` chain over
      ".png", ".gif" and ".webp", with "image/jpeg" for everything else. */
  function MimeOf(name: string): (mime: string)
    ensures mime in {"image/png", "image/gif", "image/webp", "image/jpeg"}
  {
    if EndsWith(name, ".png") then "image/png"
    else if EndsWith(name, ".gif") then "image/gif"
    else if EndsWith(name, ".webp") then "image/webp"
    else "image/jpeg"
  }

  /** A name ends in `suffix`, a '.' followed by dot-free text, exactly when that
      text is the name's text after the last '.'. */
  lemma EndsWithExtension(name: string, suffix: string)
    requires |suffix| > 0 && suffix[0] == '.' && '.' !in suffix[1..]
    ensures EndsWith(name, suffix) <==> '.' in name && AfterLastDot(name) == suffix[1..]
  {
    var x := suffix[1..];
    if EndsWith(name, suffix) {
      assert name[|name| - |x|..] == suffix[1..];
      AfterLastDotUnique(name, x);
    }
    if '.' in name && AfterLastDot(name) == x {
      assert name[|name| - |x| - 1..] == suffix;
    }
  }

  /** The inferred mime type follows the case-sensitive text after the last '.':
      "png", "gif" and "webp" give their own type and everything else, upper-case
      spellings and "jpg" included, gives "image/jpeg". */
  lemma MimeFollowsRawExtension(name: string)
    ensures
      var raw := if '.' in name then AfterLastDot(name) else "";
      MimeOf(name) == if raw == "png" then "image/png"
                      else if raw == "gif" then "image/gif"
                      else if raw == "webp" then "image/webp"
                      else "image/jpeg"
  {
    assert ".png"[1..] == "png" && ".gif"[1..] == "gif" && ".webp"[1..] == "webp";
    EndsWithExtension(name, ".png");
    EndsWithExtension(name, ".gif");
    EndsWithExtension(name, ".webp");
  }

  /** A name stored by an upload carries the lower-cased extension, so its inferred
      mime type follows the extension whatever case the client used. */
  lemma StoredMime(token: string, filename: string)
    requires '.' !in token
    ensures
      var ext := GetFileExtension(filename);
      MimeOf(StoredName(token, filename)) == if ext == "png" then "image/png"
                                              else if ext == "gif" then "image/gif"
                                              else if ext == "webp" then "image/webp"
                                              else "image/jpeg"
  {
    var ext := GetFileExtension(filename);
    var name := StoredName(token, filename);
    assert name[|name| - |ext|..] == ext;
    AfterLastDotUnique(name, ext);
    MimeFollowsRawExtension(name);
  }

  /** Concrete mime inferences: `endswith` is case-sensitive, so ".PNG" and ".jpg"
      both fall through to "image/jpeg". */
  lemma MimeExamples()
    ensures MimeOf("a.png") == "image/png" && MimeOf("a.PNG") == "image/jpeg"
    ensures MimeOf("a.jpg") == "image/jpeg" && MimeOf("a.jpeg") == "image/jpeg"
    ensures MimeOf("a.webp") == "image/webp" && MimeOf("a.gif") == "image/gif"
  {
    assert "a.png"[1..] == ".png";
    assert "a.gif"[1..] == ".gif";
    assert "a.webp"[1..] == ".webp";
    assert "a.PNG"[1..] == ".PNG";
  }

  /** The record the service builds for a stored name from its `stat` data. */
  function StoredRecord(name: string, e: Entry): (r: ImageRecord)
    ensures r.id == IdOf(name) && StartsWith(name, r.id) && '.' !in r.id
    ensures |r.id| < |name| ==> name[|r.id|] == '.'
    ensures r.filename == name
    ensures r.url == URL_PREFIX + name && r.size == |e.content| && r.createdAt == e.ctime
    ensures r.mimeType == Some(MimeOf(name))
  {
    ImageRecord(IdOf(name), name, URL_PREFIX + name, |e.content|, Some(MimeOf(name)), e.ctime)
  }

  /** The index of the first of `files` that starts with `imageId`, if any. */
  function FirstMatch(files: seq<string>, imageId: string): (r: Option<nat>)
    ensures r.None? <==> forall n :: n in files ==> !StartsWith(n, imageId)
    ensures r.Some? ==>
      r.value < |files| && StartsWith(files[r.value], imageId) &&
      forall j :: 0 <= j < r.value ==> !StartsWith(files[j], imageId)
  {
    if files == [] then None
    else if StartsWith(files[0], imageId) then Some(0)
    else
      match FirstMatch(files[1..], imageId)
      case None =>
        assert forall n :: n in files ==> n == files[0] || n in files[1..];
        None
      case Some(i) =>
        assert forall j :: 1 <= j <= i ==> files[j] == files[1..][j - 1];
        Some(i + 1)
  }

  /** The name an id resolves to: the first listed name starting with it. */
  function Resolve(files: seq<string>, imageId: string): (target: Option<string>)
    ensures target.None? <==> forall n :: n in files ==> !StartsWith(n, imageId)
    ensures target.Some? ==> target.value in files && StartsWith(target.value, imageId)
    ensures target.Some? ==>
      exists i :: 0 <= i < |files| && files[i] == target.value &&
        forall j :: 0 <= j < i ==> !StartsWith(files[j], imageId)
  {
    match FirstMatch(files, imageId)
    case None => None
    case Some(i) => Some(files[i])
  }

  /** The search loop shared by `get_image` and `delete_image`: walk the listing and
      stop at the first name that starts with the id. */
  method FindTarget(files: seq<string>, imageId: string) returns (target: Option<string>)
    ensures target == Resolve(files, imageId)
    ensures target.Some? ==>
      exists i :: 0 <= i < |files| && files[i] == target.value &&
        forall j :: 0 <= j < i ==> !StartsWith(files[j], imageId)
  {
    target := None;
    var i := 0;
    while i < |files|
      invariant 0 <= i <= |files| && target == None
      invariant forall j :: 0 <= j < i ==> !StartsWith(files[j], imageId)
    {
      if StartsWith(files[i], imageId) {
        target := Some(files[i]);
        break;
      }
      i := i + 1;
    }
    if target.Some? {
      assert FirstMatch(files, imageId).value == i;
    }
  }

  /** `ImageService.upload_image`: save the upload, then describe it with the client's
      file name and content type, the stored name's id and URL and the stored size.
      A failed save is passed on with its message. */
  method UploadImage(dir: ImageDir, upload: UploadFile, token: string, pos: nat,
                     outcome: WriteOutcome, now: Timestamp)
    returns (success: bool, message: Message, info: Option<ImageRecord>)
    requires dir.Valid() && IsToken(token) && pos <= |dir.order|
    modifies dir
    ensures dir.Valid()
    ensures success <==>
      Accepted(upload) && Opens(old(dir.entries), StoredName(token, upload.filename), outcome) &&
      outcome.Written?
    ensures !success ==> info == None
    ensures !success ==>
      message == if !IsAllowedFile(upload.filename) then UnsupportedType
                 else if !IsWithinSizeLimit(|upload.content|) then TooLarge
                 else SaveFailed
    ensures success ==>
      message == ImageUploaded &&
      info == Some(ImageRecord(token, upload.filename, URL_PREFIX + StoredName(token, upload.filename),
                               |upload.content|, upload.contentType, now))
    ensures Accepted(upload) && Opens(old(dir.entries), StoredName(token, upload.filename), outcome) ==>
      Stored(old(dir.order), old(dir.entries), dir.order, dir.entries,
             StoredName(token, upload.filename), BytesLeft(upload.content, outcome), pos, now)
    ensures !(Accepted(upload) && Opens(old(dir.entries), StoredName(token, upload.filename), outcome)) ==>
      dir.order == old(dir.order) && dir.entries == old(dir.entries)
  {
    var saved, msg, filename := dir.SaveUploadFile(upload, token, pos, outcome, now);
    if !saved {
      return saved, msg, None;
    }
    var name := filename.value;
    var fileSize := |dir.entries[name].content|;
    IdOfStoredName(token, upload.filename);
    var record := ImageRecord(IdOf(name), upload.filename, URL_PREFIX + name, fileSize,
                              upload.contentType, now);
    return true, ImageUploaded, Some(record);
  }

  /** `ImageService.get_image_list`: one record per listed name that exists, in
      listing order, each under its stored name. */
  method GetImageList(dir: ImageDir) returns (images: seq<ImageRecord>)
    requires dir.Valid()
    ensures |images| == |dir.ListFiles()|
    ensures forall k :: 0 <= k < |images| ==>
      dir.ListFiles()[k] in dir.entries &&
      images[k] == StoredRecord(dir.ListFiles()[k], dir.entries[dir.ListFiles()[k]])
  {
    var files := dir.ListFiles();
    images := [];
    for i := 0 to |files|
      invariant |images| == i
      invariant forall k :: 0 <= k < i ==>
        files[k] in dir.entries && images[k] == StoredRecord(files[k], dir.entries[files[k]])
    {
      var filename := files[i];
      assert filename in files;
      if filename in dir.entries {
        var stats := dir.entries[filename];
        images := images + [StoredRecord(filename, stats)];
      }
    }
  }

  /** `ImageService.get_image`: the record of the first listed name that starts with
      the id, or nothing when no listed name does. */
  method GetImage(dir: ImageDir, imageId: string) returns (info: Option<ImageRecord>)
    requires dir.Valid()
    ensures info.None? <==> forall n :: n in dir.ListFiles() ==> !StartsWith(n, imageId)
    ensures info.Some? ==>
      var target := Resolve(dir.ListFiles(), imageId).value;
      target in dir.entries && info.value == StoredRecord(target, dir.entries[target])
  {
    var files := dir.ListFiles();
    var target := FindTarget(files, imageId);
    // A listed name has an allowed extension, so it is never the empty string.
    if target.None? || target.value == "" {
      return None;
    }
    var name := target.value;
    assert name in files && name in dir.entries;
    var stats := dir.entries[name];
    return Some(StoredRecord(name, stats));
  }

  /** `ImageService.delete_image`: delete the first listed name that starts with the
      id, or report that there is none and change nothing. */
  method DeleteImage(dir: ImageDir, imageId: string, ioFails: bool) returns (success: bool, message: Message)
    requires dir.Valid()
    modifies dir
    ensures dir.Valid()
    ensures Resolve(old(dir.ListFiles()), imageId).None? ==>
      !success && message == ImageMissing &&
      dir.order == old(dir.order) && dir.entries == old(dir.entries)
    ensures Resolve(old(dir.ListFiles()), imageId).Some? ==>
      var target := Resolve(old(dir.ListFiles()), imageId).value;
      success == !ioFails &&
      (success ==> message == FileDeleted &&
                   dir.entries == old(dir.entries) - {target} &&
                   dir.order == Remove(old(dir.order), target)) &&
      (!success ==> message == DeleteFailed &&
                    dir.order == old(dir.order) && dir.entries == old(dir.entries))
  {
    var files := dir.ListFiles();
    var target := FindTarget(files, imageId);
    if target.None? || target.value == "" {
      return false, ImageMissing;
    }
    assert target.value in dir.entries && PlainName(target.value);
    success, message := dir.DeleteFile(target.value, ioFails);
  }

  /** After the resolved file of an id is deleted, the listing is the old one without
      it, and the id resolves to nothing exactly when no other listed name starts
      with it. */
  lemma GetAfterDelete(order: seq<string>, entries: map<string, Entry>, imageId: string)
    ensures
      var files := Listed(order, entries);
      Resolve(files, imageId).Some? ==>
        var target := Resolve(files, imageId).value;
        var files' := Listed(Remove(order, target), entries - {target});
        files' == Remove(files, target) &&
        (Resolve(files', imageId).None? <==>
           forall n :: n in files && n != target ==> !StartsWith(n, imageId))
  {
    var files := Listed(order, entries);
    if Resolve(files, imageId).Some? {
      var target := Resolve(files, imageId).value;
      ListedAfterRemove(order, entries, target);
    }
  }

  /** With "ab.png" listed before "abc.png", deleting id "ab" removes "ab.png" and the
      same id then resolves to "abc.png": a delete followed by a get need not 404. */
  lemma DeleteThenGetExample()
    ensures
      var order := ["ab.png", "abc.png"];
      var e := Entry(true, [], 0);
      var entries := map["ab.png" := e, "abc.png" := e];
      Listed(order, entries) == order &&
      Resolve(Listed(order, entries), "ab") == Some("ab.png") &&
      Resolve(Listed(Remove(order, "ab.png"), entries - {"ab.png"}), "ab") == Some("abc.png")
  {
    var order := ["ab.png", "abc.png"];
    var e := Entry(true, [], 0);
    var entries := map["ab.png" := e, "abc.png" := e];
    AfterLastDotUnique("ab.png", "png");
    AfterLastDotUnique("abc.png", "png");
    assert Lower("png") == "png";
    assert order[1..] == ["abc.png"];
    assert Listed(order, entries) == order;
    assert Remove(order, "ab.png") == ["abc.png"];
    assert StartsWith("ab.png", "ab") && StartsWith("abc.png", "ab");
  }

  /** After a successful upload under a fresh token (no listed name starts with it),
      the token resolves to the new name, which is the only listed name with that id. */
  lemma UploadThenResolve(order: seq<string>, entries: map<string, Entry>, pos: nat,
                          token: string, filename: string, content: seq<byte>, now: Timestamp)
    requires pos <= |order| && IsToken(token) && IsAllowedFile(filename)
    requires forall n :: n in entries <==> n in order
    requires forall n :: n in Listed(order, entries) ==> !StartsWith(n, token)
    ensures
      var name := StoredName(token, filename);
      var files := Listed(if name in entries then order else Insert(order, pos, name),
                          entries[name := Entry(true, content, now)]);
      Resolve(files, token) == Some(name) &&
      forall n :: n in files ==> (IdOf(n) == token <==> n == name)
  {
    var name := StoredName(token, filename);
    var files := Listed(if name in entries then order else Insert(order, pos, name),
                        entries[name := Entry(true, content, now)]);
    SavedNameIsListed(order, entries, pos, token, filename, content, now);
    IdOfStoredName(token, filename);
    assert StartsWith(name, token);
    forall n | n in files && IdOf(n) == token ensures n == name {
      assert StartsWith(n, IdOf(n));
    }
  }
}

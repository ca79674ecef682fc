# Image upload service: a Dafny model

This project models the core of a small HTTP image service, `pic_api`. Clients upload
images into one flat directory and can then list, look up, download and delete them.
The model has four modules, one per source file plus a shared one.

- `Common` (`common.dfy`): bytes, timestamps, `Option` and the message tags. It also
  holds the string operations the Python code relies on (`startswith`, `endswith`,
  `lower`) and the sequence helpers `Insert`, `Remove` and `NoDup`.
- `FileUtils` (`file_utils.dfy`) models `app/utils/file_utils.py`. It covers extension
  extraction, the allow-list `{jpg, jpeg, png, gif, webp}` and the inclusive 10 MiB
  ceiling. The image directory is the class `ImageDir`:
  - `order` is the order in which `os.listdir` reports names;
  - `entries` maps each name to a regular file or a sub-directory, with its bytes and
    change time.

  `SaveUploadFile` and `DeleteFile` update the directory in place. `Listed` is the
  listing filter behind `list_files`.
- `ImageService` (`image_service.dfy`) models `app/services/image_service.py`:
  - the id of a stored name (the text before its first `.`);
  - the case-sensitive `endswith` mime chain;
  - the record built for a stored name;
  - the first-match-wins prefix lookup, as the function `FirstMatch` and the search
    loop `FindTarget`;
  - the upload, list, get and delete operations.
- `ImagesRouter` (`images_router.dfy`) models `app/routers/images.py`. Each handler
  returns an `Envelope(success, message, data)`, a `NotFound` (HTTP 404) or a
  `FileResponse`.

Four inputs are outside the program's control. Each is a parameter of the operation
that needs it:
- the uuid4 token: a non-empty string without a `.` and without `/`;
- where a new name lands in the listing order: `pos`;
- how a save's write goes: the `WriteOutcome` is `Written`, `OpenFault` (`open` raises,
  nothing is created) or `WriteFault(n)` (the file was created or truncated and only
  its first `n` bytes were written before `write` raised);
- whether a removal raises: `ioFails`.

Clock readings are a `now` parameter. A stored file's change time is kept in its
directory entry.

When the generated name already exists as a regular file, the model overwrites it,
as `open(path, "wb")` does. When that name is a sub-directory, the save fails, because
`open` raises there. A fault during `write` still reports failure, but the file that
`open` created stays behind with the bytes written so far, and it is listed like any
other stored file.

The model follows the code, including where the code's own comment `# UUID作为ID`
(`app/services/image_service.py:37`) suggests otherwise:
- An id is the text before the first `.` of the stored name, not the name without its
  extension. For names the service generates, the two are the same
  (`IdOfStoredName`).
- The lookup is a prefix match. So a delete followed by a get of the same id still
  succeeds when another listed name starts with that id (`GetAfterDelete`,
  `DeleteThenGetExample`). Any prefix of a stored name resolves, the empty id
  included.
- A successful upload's record carries the client's content type. Later lookups carry
  the type inferred from the stored name.

## Model

| member | source | states |
|---|---|---|
| `FileUtils.AfterLastDot` | app/utils/file_utils.py:15 | the result is the suffix that follows a `.` and contains no `.`, that is, the text after the last `.` |
| `FileUtils.GetFileExtension` | app/utils/file_utils.py:13-15 | the extension never contains `.`; it is `""` when the name has no `.`; otherwise it is the lower-cased dot-free text after a `.` at the end of the name |
| `FileUtils.ExtensionIgnoresCase` | app/utils/file_utils.py:15 | lower-casing a name first leaves its extension unchanged, so the allow-list test ignores case |
| `FileUtils.IsAllowedFile` | app/utils/file_utils.py:17-20 | an allowed name contains a `.` and does not end in `.` |
| `FileUtils.IsWithinSizeLimit` | app/utils/file_utils.py:22-24 | a size passes iff it is at most 10485760 bytes (10 MiB), the ceiling itself included |
| `FileUtils.ValidatorExamples` | app/utils/file_utils.py:7-24 | `photo.PNG` and `a.b.JpEg` are accepted; `photo`, `photo.`, `png` and `virus.exe` are refused; 10485760 bytes pass the size check and 10485761 do not |
| `FileUtils.PathOf` | app/utils/file_utils.py:43 | a stored name's path is exactly `static/images`, then `/`, then the name |
| `FileUtils.StoredName` | app/utils/file_utils.py:41-42 | the generated name is the token, then `.`, then exactly the extension of the client's file name |
| `FileUtils.StoredNameIsPlain` | app/utils/file_utils.py:41-43 | for an accepted file name, the generated name is a plain name inside the image directory: not empty, not `.` or `..`, and without `/` |
| `FileUtils.StoredNameExtension` | app/utils/file_utils.py:41-42 | the name `token.ext` has the same extension as the client's file name, so an accepted upload is stored under a name that passes the allow-list |
| `FileUtils.Listed` | app/utils/file_utils.py:83-98 | a name is listed iff it is in the directory, is a regular file and has an allowed lower-cased extension; the listing is no longer than the directory and has no duplicates |
| `FileUtils.ListedAfterRemove` | app/utils/file_utils.py:94-96 | removing a name from the directory removes exactly that name from the listing and keeps the order of the rest |
| `FileUtils.SavedNameIsListed` | app/utils/file_utils.py:41-56 | after a successful save, the stored name is listed and every other listed name was listed before |
| `FileUtils.ImageDir.constructor` | app/utils/file_utils.py:10-11 | the initial image directory `static/images` is empty and valid |
| `FileUtils.ImageDir.ListFiles` | app/utils/file_utils.py:83-98 | every listed name is a stored regular file whose extension passes the allow-list; in a valid directory every such file is listed, and none twice |
| `FileUtils.ImageDir.SaveUploadFile` | app/utils/file_utils.py:26-58 | the type check runs first, then the size check; each failure writes nothing and reports its own message; success iff both pass, `open` succeeds on the generated name (no open fault, not a directory) and the whole write succeeds; whenever `open` succeeds, exactly the entry `token.ext` is replaced by a regular file holding the bytes written (all of them, or the prefix a write fault left), and the listing order gains that name at `pos` only if it is new; on success the name is returned, on failure nothing is |
| `FileUtils.ImageDir.DeleteFile` | app/utils/file_utils.py:60-81 | a missing name is reported and nothing changes; `""`, `.` and `..` name the image directory or its parent, which exist but cannot be removed, so they report a failed delete; success iff the name is a regular file and no I/O fault occurs; success removes exactly that entry and its place in the order; failure changes nothing |
| `ImageService.IdOf` | app/services/image_service.py:37 | the id is a dot-free prefix of the name, followed in the name by `.` or by nothing |
| `ImageService.IdOfStoredName` | app/services/image_service.py:37 | the id of `token.ext` is the token, so uploads with distinct tokens get distinct ids |
| `ImageService.MimeOf` | app/services/image_service.py:69-75 | the inferred type is one of image/png, image/gif, image/webp, image/jpeg |
| `ImageService.MimeFollowsRawExtension` | app/services/image_service.py:69-75 | the type follows the case-sensitive text after the last `.`: `png`, `gif` and `webp` give their own type; everything else gives image/jpeg, including `jpg`, `PNG` and names without a `.` |
| `ImageService.StoredMime` | app/services/image_service.py:121-127 | a name stored by an upload gets the type of its lower-cased extension, whatever case the client used |
| `ImageService.MimeExamples` | app/services/image_service.py:121-127 | `a.png` gives image/png; `a.PNG`, `a.jpg` and `a.jpeg` give image/jpeg; `a.gif` and `a.webp` give their own types |
| `ImageService.StoredRecord` | app/services/image_service.py:77-84 | a stored name's record has that name as filename, the name's id (its dot-free prefix, followed by `.` when shorter) as id, the url prefix plus the name as url, the stored size and change time, and the inferred mime type |
| `ImageService.FirstMatch` | app/services/image_service.py:105-108 | no index iff no name starts with the id; otherwise the index of a name that starts with the id, with no earlier name doing so |
| `ImageService.Resolve` | app/services/image_service.py:102-111 | nothing iff no listed name starts with the id; otherwise the listed name that starts with the id and is preceded by no other name that does |
| `ImageService.FindTarget` | app/services/image_service.py:101-108 | the loop with its early exit finds exactly the first listed name that starts with the id, or nothing |
| `ImageService.UploadImage` | app/services/image_service.py:16-45 | a failed save passes its message through with no record, and changes the directory exactly as the save did (a write fault leaves the partial file); a successful upload's record has the token as id, the client's file name and content type, the url prefix plus the stored name as url, and the uploaded byte count as size |
| `ImageService.GetImageList` | app/services/image_service.py:47-88 | one record per listed name, in listing order, each the stored-name record of that name |
| `ImageService.GetImage` | app/services/image_service.py:90-138 | nothing iff no listed name starts with the id; otherwise the record of the first listed name that does |
| `ImageService.DeleteImage` | app/services/image_service.py:140-163 | with no match, it reports a missing image and removes nothing; otherwise it deletes exactly the first match and returns what the file deletion returned |
| `ImageService.GetAfterDelete` | app/services/image_service.py:155-163 | after the resolved file is deleted, the listing loses exactly that name; the id then resolves to nothing iff no other listed name starts with it |
| `ImageService.DeleteThenGetExample` | app/services/image_service.py:155-158 | with `ab.png` listed before `abc.png`, deleting id `ab` removes `ab.png`, and `ab` then resolves to `abc.png` |
| `ImageService.UploadThenResolve` | app/services/image_service.py:102-108 | after a successful upload with a token no listed name starts with, the token resolves to the new name, and that name is the only listed one whose id is the token |
| `ImagesRouter.IsImageContentType` | app/routers/images.py:16 | a content type passes iff it is present and its first six characters are `image/`; the separate emptiness test adds nothing |
| `ImagesRouter.ContentTypeExamples` | app/routers/images.py:16 | a missing or empty content type, `text/plain` and `IMAGE/PNG` are refused; `image/png` and `image/` pass |
| `ImagesRouter.UploadImage` | app/routers/images.py:11-29 | a non-image content type gives a failed envelope with null data and leaves the directory untouched; otherwise success, message and data are the service's result |
| `ImagesRouter.GetImageList` | app/routers/images.py:31-42 | always a successful envelope whose data are the service's records, one per listed name |
| `ImagesRouter.GetImage` | app/routers/images.py:44-58 | 404 iff no listed name starts with the id; otherwise a successful envelope with the resolved name's record |
| `ImagesRouter.DownloadImage` | app/routers/images.py:60-79 | 404 iff no listed name starts with the id; otherwise the resolved regular file is served under its stored name, with its inferred mime type |
| `ImagesRouter.DeleteImage` | app/routers/images.py:81-92 | the envelope's data is always null; success and message are the service's result, which are stated in terms of the first match |

## Left out

- The uuid4 token generator is not modelled. The token is a parameter: a non-empty string without a `.` and without `/`. Uniqueness is not assumed; a collision overwrites, as the code does.
- `datetime.now()` and `st_ctime` are not modelled. They are opaque `Timestamp` values. The model uses the same `now` for the record of a fresh upload and for the change time of the file it writes.
- Real file-system I/O and exception objects are not modelled. A faulty save is the `WriteOutcome` parameter and a faulty removal the `ioFails` flag. Failure messages are tags and do not include the exception text.
- The size message's float division `MAX_FILE_SIZE / 1024 / 1024` is not modelled. So is the order in which the allowed extensions are joined in the type message. Both messages are tags.
- `os.listdir` order is a field that stays fixed between calls. Where a new name appears in it is the `pos` parameter.
- Directory creation (`os.makedirs` in `save_upload_file` and `list_files`) is not modelled. The image directory is taken to exist; the constructor gives its initial, empty state.
- Concurrent requests on the shared directory are not modelled. So the existence re-checks in `get_image_list` and in the download handler always pass here. The download handler's "file vanished" 404 is in the model but cannot be reached.
- `Lower`: it lower-cases ASCII letters only. Python's `str.lower` is full Unicode. No non-ASCII character lower-cases to one of the allowed extensions, so the allow-list verdict is the same.
- A client file name of `None` is not modelled: the Python code would raise on it. The file name is always a string here.
- `DeleteFile`: names containing `/` are not modelled; the real call would reach files outside the image directory, which the model does not hold. Its only caller passes a name taken from the listing, which never contains `/`.
- `DownloadImage` returns the path, download name and media type of the file response. It does not model streaming the bytes.
- The browser front end (`static/js/main.js`) and the application set-up (`app/main.py`) are not part of this model.

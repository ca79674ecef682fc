/** The upload validator and the flat image directory (app/utils/file_utils.py):
    extension extraction, the allow-list and size ceiling, saving an upload under a
    generated name, deleting a file and listing the stored images. */
module FileUtils {
  import opened Common

  /** The extensions an upload may carry, compared after lower-casing. */
  const ALLOWED_EXTENSIONS: set<string> := {"jpg", "jpeg", "png", "gif", "webp"}

  /** The size ceiling in bytes: 10 MiB. */
  const MAX_FILE_SIZE: nat := 10 * 1024 * 1024

  /** The directory that holds the images, relative to the working directory. */
  const UPLOAD_DIR: string := "static/images"

  /** The path of a stored name inside the image directory (POSIX `os.path.join`). */
  function PathOf(name: string): (path: string)
    ensures EndsWith(path, "/" + name) && StartsWith(path, UPLOAD_DIR)
    ensures |path| == |UPLOAD_DIR| + 1 + |name|
  {
    UPLOAD_DIR + "/" + name
  }

  /** The text after the last '.' of `s`. */
  function AfterLastDot(s: string): (r: string)
    requires '.' in s
    ensures |r| < |s| && s[|s| - |r| - 1] == '.'
    ensures r == s[|s| - |r|..] && '.' !in r
    decreases |s|
  {
    if s[|s| - 1] == '.' then ""
    else
      assert '.' in s[..|s| - 1] by {
        var k :| 0 <= k < |s| && s[k] == '.';
        assert s[..|s| - 1][k] == '.';
      }
      AfterLastDot(s[..|s| - 1]) + [s[|s| - 1]]
  }

  /** A suffix that follows a '.' and contains none is exactly the text after the
      last '.'. */
  lemma AfterLastDotUnique(s: string, x: string)
    requires |x| < |s| && s[|s| - |x| - 1] == '.' && s[|s| - |x|..] == x && '.' !in x
    ensures '.' in s && AfterLastDot(s) == x
  {
    assert s[|s| - |x| - 1] in s;
  }

  /** The extension of a file name: the lower-cased text after its last '.', or the
      empty string when it has no '.'. */
  function GetFileExtension(filename: string): (ext: string)
    ensures '.' !in ext
    ensures '.' !in filename ==> ext == ""
    ensures '.' in filename ==>
      |ext| < |filename| && filename[|filename| - |ext| - 1] == '.' &&
      '.' !in filename[|filename| - |ext|..] && ext == Lower(filename[|filename| - |ext|..])
  {
    if '.' in filename then Lower(AfterLastDot(filename)) else ""
  }

  /** Lower-casing a name first does not change its extension: the extension test
      ignores case. */
  lemma {:induction false} ExtensionIgnoresCase(filename: string)
    ensures GetFileExtension(Lower(filename)) == GetFileExtension(filename)
  {
    var low := Lower(filename);
    if '.' in filename {
      var x := AfterLastDot(filename);
      var k := |filename| - |x|;
      LowerSlices(filename, k);
      assert low[k..] == Lower(x);
      assert low[k - 1] == '.';
      assert '.' !in Lower(x) by {
        forall i | 0 <= i < |x| ensures Lower(x)[i] != '.' {
          assert x[i] != '.';
        }
      }
      AfterLastDotUnique(low, Lower(x));
      LowerIdempotent(x);
      assert GetFileExtension(low) == Lower(Lower(x));
    } else {
      assert '.' !in low by {
        forall i | 0 <= i < |low| ensures low[i] != '.' {
          assert filename[i] != '.';
        }
      }
    }
  }

  function IsAllowedFile(filename: string): (allowed: bool)
    ensures allowed ==> '.' in filename && filename[|filename| - 1] != '.'
  {
    GetFileExtension(filename) in ALLOWED_EXTENSIONS
  }

  function IsWithinSizeLimit(fileSize: int): (ok: bool)
    ensures ok <==> fileSize <= 10485760
  {
    fileSize <= MAX_FILE_SIZE
  }

  /** Concrete instances of the validator: upper-case extensions are accepted, a
      name ending in '.' or without one is refused, and the ceiling is inclusive. */
  lemma ValidatorExamples()
    ensures IsAllowedFile("photo.PNG") && IsAllowedFile("a.b.JpEg")
    ensures !IsAllowedFile("photo") && !IsAllowedFile("photo.") && !IsAllowedFile("virus.exe")
    ensures !IsAllowedFile("png")
    ensures IsWithinSizeLimit(10485760) && !IsWithinSizeLimit(10485761)
  {
    AfterLastDotUnique("photo.PNG", "PNG");
    AfterLastDotUnique("a.b.JpEg", "JpEg");
    AfterLastDotUnique("virus.exe", "exe");
    assert Lower("PNG") == "png";
    assert Lower("JpEg") == "jpeg";
    assert Lower("exe") == "exe";
  }

  /** The name an accepted upload is stored under: the generated token, a '.', and
      the lower-cased extension of the client's file name. */
  function StoredName(token: string, filename: string): (name: string)
    ensures StartsWith(name, token) && |name| > |token| && name[|token|] == '.'
    ensures name[|token| + 1..] == GetFileExtension(filename)
  {
    token + "." + GetFileExtension(filename)
  }

  /** A token as `uuid.uuid4()` renders it: non-empty, without a '.' and without a
      path separator. */
  predicate IsToken(token: string) {
    token != "" && '.' !in token && '/' !in token
  }

  /** A name a directory can hold: not empty, not "." or "..", and without a path
      separator. */
  predicate PlainName(name: string) {
    name != "" && name != "." && name != ".." && '/' !in name
  }

  /** An accepted upload is stored under a plain name. */
  lemma StoredNameIsPlain(token: string, filename: string)
    requires IsToken(token) && IsAllowedFile(filename)
    ensures PlainName(StoredName(token, filename))
  {
    var ext := GetFileExtension(filename);
    var name := StoredName(token, filename);
    assert '/' !in ext;
    assert name[0] == token[0] != '.';
    forall i | 0 <= i < |name| ensures name[i] != '/' {
      if i < |token| {
        assert name[i] == token[i];
      } else if i > |token| {
        assert name[i] == ext[i - |token| - 1];
      }
    }
  }

  /** The upload passes both checks of `save_upload_file`. */
  predicate Accepted(upload: UploadFile) {
    IsAllowedFile(upload.filename) && IsWithinSizeLimit(|upload.content|)
  }

  /** How the write ends: without a fault; with `open` raising before it touched
      anything; or with `write` raising after `open` had created or truncated the
      file and `written` bytes had reached it. */
  datatype WriteOutcome = Written | OpenFault | WriteFault(written: nat)

  /** `open(path, "wb")` on `name` succeeds: it raises on a sub-directory and on an
      open fault. */
  predicate Opens(entries: map<string, Entry>, name: string, outcome: WriteOutcome) {
    !outcome.OpenFault? && (name in entries ==> entries[name].isFile)
  }

  /** The bytes a write of `content` leaves in the file: all of them, or the prefix
      that reached the file before the fault. */
  function BytesLeft(content: seq<byte>, outcome: WriteOutcome): (data: seq<byte>)
    ensures |data| <= |content| && data == content[..|data|]
    ensures outcome.Written? ==> data == content
    ensures outcome.WriteFault? ==> |data| == if outcome.written < |content| then outcome.written else |content|
  {
    if outcome.WriteFault? && outcome.written < |content| then content[..outcome.written] else content
  }

  /** The directory (`order1`, `entries1`) is (`order0`, `entries0`) with the regular
      file `name` now holding `data`; a new name has listing index `pos`. */
  ghost predicate Stored(order0: seq<string>, entries0: map<string, Entry>,
                         order1: seq<string>, entries1: map<string, Entry>,
                         name: string, data: seq<byte>, pos: nat, now: Timestamp)
  {
    pos <= |order0| &&
    entries1 == entries0[name := Entry(true, data, now)] &&
    order1 == if name in entries0 then order0 else Insert(order0, pos, name)
  }

  /** A stored name's extension is the one it was stored with, so an accepted upload
      always yields a name that passes the same allow-list. */
  lemma StoredNameExtension(token: string, filename: string)
    requires '.' !in token
    ensures GetFileExtension(StoredName(token, filename)) == GetFileExtension(filename)
    ensures IsAllowedFile(filename) ==> IsAllowedFile(StoredName(token, filename))
  {
    var ext := GetFileExtension(filename);
    var name := StoredName(token, filename);
    assert name[|name| - |ext|..] == ext;
    AfterLastDotUnique(name, ext);
    if '.' in filename {
      var x := filename[|filename| - |ext|..];
      LowerIdempotent(x);
    }
  }

  /** One entry of the image directory: a regular file or a sub-directory, with the
      bytes `stat` would report the size of and its change time. */
  datatype Entry = Entry(isFile: bool, content: seq<byte>, ctime: Timestamp)

  /** What the client sends: its file name, the declared content type (absent when
      the request gave none) and the body bytes. */
  datatype UploadFile = UploadFile(filename: string, contentType: Option<string>, content: seq<byte>)

  /** The names `list_files` reports: the entries of `order` that are regular files
      with an allowed (lower-cased) extension, in listing order. */
  function Listed(order: seq<string>, entries: map<string, Entry>): (files: seq<string>)
    ensures forall n :: n in files <==>
      n in order && n in entries && entries[n].isFile && GetFileExtension(n) in ALLOWED_EXTENSIONS
    ensures |files| <= |order|
    ensures NoDup(order) ==> NoDup(files)
  {
    if order == [] then []
    else
      var rest := Listed(order[1..], entries);
      var n := order[0];
      assert forall m :: m in order[1..] ==> m in order;
      assert forall m :: m in order <==> m == n || m in order[1..];
      if n in entries && entries[n].isFile && GetFileExtension(n) in ALLOWED_EXTENSIONS then
        assert NoDup(order) ==> n !in order[1..];
        [n] + rest
      else rest
  }

  /** Removing a name from the directory removes it, and only it, from the listing,
      keeping the order of the others. */
  lemma {:induction false} ListedAfterRemove(order: seq<string>, entries: map<string, Entry>, name: string)
    ensures Listed(Remove(order, name), entries - {name}) == Remove(Listed(order, entries), name)
  {
    if order != [] {
      ListedAfterRemove(order[1..], entries, name);
      var n := order[0];
      if n == name {
        assert Remove(order, name) == Remove(order[1..], name);
      } else {
        assert Remove(order, name) == [n] + Remove(order[1..], name);
        assert Remove(order, name)[1..] == Remove(order[1..], name);
      }
    }
  }

  /** The image directory. `order` is the order in which `os.listdir` reports the
      entries; `entries` maps each name to what is stored under it. */
  class ImageDir {
    var order: seq<string>
    var entries: map<string, Entry>

    ghost predicate Valid()
      reads this
    {
      (forall n :: n in entries <==> n in order) && NoDup(order) &&
      forall n :: n in entries ==> PlainName(n)
    }

    /** The initial, empty image directory. */
    constructor ()
      ensures Valid() && order == [] && entries == map[]
    {
      order := [];
      entries := map[];
    }

    /** `list_files()`: every stored regular file with an allowed extension, once. */
    function ListFiles(): (files: seq<string>)
      reads this
      ensures forall n :: n in files ==> n in entries && entries[n].isFile && IsAllowedFile(n)
      ensures Valid() ==> NoDup(files)
      ensures Valid() ==> forall n :: n in entries && entries[n].isFile && IsAllowedFile(n) ==> n in files
    {
      Listed(order, entries)
    }

    /** `save_upload_file`. The type check comes first, then the size check, then
        the write of `upload.content` under `token.<ext>`. The uuid token, the place
        a new name takes in the listing order, how the write ends and the change time
        it leaves are parameters. A write that `open` got through to leaves the file
        behind, whole or truncated, even when `write` then raises. */
    method SaveUploadFile(upload: UploadFile, token: string, pos: nat, outcome: WriteOutcome, now: Timestamp)
      returns (success: bool, message: Message, stored: Option<string>)
      requires Valid() && IsToken(token) && pos <= |order|
      modifies this
      ensures Valid()
      ensures success <==>
        Accepted(upload) && Opens(old(entries), StoredName(token, upload.filename), outcome) &&
        outcome.Written?
      ensures success ==> message == FileSaved && stored == Some(StoredName(token, upload.filename))
      ensures !success ==> stored == None
      ensures !success ==>
        message == if !IsAllowedFile(upload.filename) then UnsupportedType
                   else if !IsWithinSizeLimit(|upload.content|) then TooLarge
                   else SaveFailed
      ensures Accepted(upload) && Opens(old(entries), StoredName(token, upload.filename), outcome) ==>
        Stored(old(order), old(entries), order, entries, StoredName(token, upload.filename),
               BytesLeft(upload.content, outcome), pos, now)
      ensures !(Accepted(upload) && Opens(old(entries), StoredName(token, upload.filename), outcome)) ==>
        order == old(order) && entries == old(entries)
    {
      if !IsAllowedFile(upload.filename) {
        return false, UnsupportedType, None;
      }
      var extension := GetFileExtension(upload.filename);
      var newFilename := token + "." + extension;
      var content := upload.content;
      if !IsWithinSizeLimit(|content|) {
        return false, TooLarge, None;
      }
      // open(path, "wb") raises on a directory and on an open fault.
      if outcome.OpenFault? || (newFilename in entries && !entries[newFilename].isFile) {
        return false, SaveFailed, None;
      }
      // From here the file exists, empty, until write fills it.
      StoredNameIsPlain(token, upload.filename);
      if newFilename !in entries {
        InsertMembers(order, pos, newFilename);
        InsertNoDup(order, pos, newFilename);
        order := Insert(order, pos, newFilename);
      }
      entries := entries[newFilename := Entry(true, BytesLeft(content, outcome), now)];
      if outcome.WriteFault? {
        return false, SaveFailed, None;
      }
      return true, FileSaved, Some(newFilename);
    }

    /** `delete_file`. The names "", "." and ".." reach the image directory or its
        parent, which exist, so removing them raises; another missing name is
        reported; removing a sub-directory or a faulty removal raises. Nothing
        changes unless a regular file is removed. */
    method DeleteFile(filename: string, ioFails: bool) returns (success: bool, message: Message)
      requires Valid() && '/' !in filename
      modifies this
      ensures Valid()
      ensures filename in {"", ".", ".."} ==> !success && message == DeleteFailed
      ensures PlainName(filename) && filename !in old(entries) ==> !success && message == FileMissing
      ensures success <==> filename in old(entries) && old(entries)[filename].isFile && !ioFails
      ensures success ==>
        message == FileDeleted &&
        entries == old(entries) - {filename} && order == Remove(old(order), filename)
      ensures !success ==> order == old(order) && entries == old(entries)
      ensures !success && filename in old(entries) ==> message == DeleteFailed
    {
      if !PlainName(filename) {
        // The path names the image directory itself or its parent: it exists, and
        // os.remove raises on a directory.
        return false, DeleteFailed;
      }
      if filename !in entries {
        return false, FileMissing;
      }
      // os.remove raises on a directory and on any I/O fault.
      if ioFails || !entries[filename].isFile {
        return false, DeleteFailed;
      }
      entries := entries - {filename};
      order := Remove(order, filename);
      return true, FileDeleted;
    }
  }

  /** A successful save makes the stored name appear in the listing, and every other
      listed name was listed before. */
  lemma SavedNameIsListed(order: seq<string>, entries: map<string, Entry>, pos: nat,
                          token: string, filename: string, content: seq<byte>, now: Timestamp)
    requires pos <= |order| && IsToken(token) && IsAllowedFile(filename)
    requires forall n :: n in entries <==> n in order
    ensures
      var name := StoredName(token, filename);
      var files := Listed(if name in entries then order else Insert(order, pos, name),
                          entries[name := Entry(true, content, now)]);
      name in files && forall n :: n in files && n != name ==> n in Listed(order, entries)
  {
    var name := StoredName(token, filename);
    var order' := if name in entries then order else Insert(order, pos, name);
    var entries' := entries[name := Entry(true, content, now)];
    StoredNameExtension(token, filename);
    InsertMembers(order, pos, name);
    assert name in order';
    ListedUpdate(order, order', entries, name, Entry(true, content, now));
  }

  /** Storing a regular file under an allowed name that the new order contains adds it to the
      listing and leaves the rest of the listing's members as they were. */
  lemma ListedUpdate(order: seq<string>, order': seq<string>, entries: map<string, Entry>,
                     name: string, e: Entry)
    requires forall n :: n in order' ==> n in order || n == name
    requires name in order' && e.isFile && GetFileExtension(name) in ALLOWED_EXTENSIONS
    ensures name in Listed(order', entries[name := e])
    ensures forall n :: n in Listed(order', entries[name := e]) && n != name ==> n in Listed(order, entries)
  {
  }
}

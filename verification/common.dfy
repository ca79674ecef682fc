/** Vocabulary shared by the image store, the image service and the HTTP handlers:
    bytes, timestamps, optional values, the messages the service reports, and the
    string and sequence operations the Python code uses (`startswith`, `endswith`,
    `lower`). */
module Common {

  newtype byte = x: int | 0 <= x < 256

  /** A point in time. Creation and change times are opaque to the model: they are
      only copied from the file system or from the clock into image records. */
  type Timestamp = int

  datatype Option<T> = None | Some(value: T)

  /** The messages that the file utilities, the service and the handlers put into
      their result tuples and envelopes. Messages that embed an exception text or a
      formatted number are represented by their tag alone. */
  datatype Message =
    | UnsupportedType    // save: the extension is not on the allow-list
    | TooLarge           // save: the content exceeds the size ceiling
    | FileSaved          // save: the bytes were written
    | SaveFailed         // save: writing raised an exception
    | FileMissing        // delete_file: no entry of that name
    | FileDeleted        // delete_file: the entry was removed
    | DeleteFailed       // delete_file: removing raised an exception
    | ImageUploaded      // upload_image: saved and described
    | ImageMissing       // no listed file has the requested id as a prefix
    | ImagesOnly         // upload handler: content type is not image/*
    | ListFetched        // list handler
    | ImageFetched       // get handler
    | ImageFileMissing   // download handler: resolved file vanished

  /** Python's `s.startswith(prefix)`. */
  predicate StartsWith(s: string, prefix: string) {
    |prefix| <= |s| && s[..|prefix|] == prefix
  }

  /** Python's `s.endswith(suffix)`. */
  predicate EndsWith(s: string, suffix: string) {
    |suffix| <= |s| && s[|s| - |suffix|..] == suffix
  }

  /** Lower-casing of one character; only the ASCII letters A-Z change. */
  function LowerChar(c: char): (d: char)
    ensures d == '.' <==> c == '.'
    ensures !('A' <= d <= 'Z')
  {
    if 'A' <= c <= 'Z' then (c as int + 32) as char else c
  }

  /** Python's `s.lower()` restricted to ASCII letters. */
  function Lower(s: string): (r: string)
    ensures |r| == |s|
    ensures forall i :: 0 <= i < |s| ==> r[i] == LowerChar(s[i])
  {
    seq(|s|, i requires 0 <= i < |s| => LowerChar(s[i]))
  }

  /** Lower-casing twice is lower-casing once. */
  lemma LowerIdempotent(s: string)
    ensures Lower(Lower(s)) == Lower(s)
  {
    assert forall i :: 0 <= i < |s| ==> LowerChar(LowerChar(s[i])) == LowerChar(s[i]);
  }

  /** Lower-casing commutes with taking a suffix and with concatenation. */
  lemma LowerSlices(s: string, k: nat)
    requires k <= |s|
    ensures Lower(s[k..]) == Lower(s)[k..]
    ensures Lower(s[..k]) == Lower(s)[..k]
  {
  }

  predicate NoDup<T(==)>(s: seq<T>) {
    forall i, j :: 0 <= i < j < |s| ==> s[i] != s[j]
  }

  /** `s` with `x` placed so that it has index `pos`. */
  function Insert<T>(s: seq<T>, pos: nat, x: T): (r: seq<T>)
    requires pos <= |s|
    ensures |r| == |s| + 1 && r[pos] == x
    ensures forall k :: 0 <= k < pos ==> r[k] == s[k]
    ensures forall k :: pos < k < |r| ==> r[k] == s[k - 1]
  {
    s[..pos] + [x] + s[pos..]
  }

  lemma {:induction false} InsertMembers<T>(s: seq<T>, pos: nat, x: T)
    requires pos <= |s|
    ensures forall y :: y in Insert(s, pos, x) <==> y in s || y == x
  {
    var r := Insert(s, pos, x);
    forall y | y in s ensures y in r {
      var k :| 0 <= k < |s| && s[k] == y;
      if k < pos { assert r[k] == y; } else { assert r[k + 1] == y; }
    }
    forall y | y in r && y != x ensures y in s {
      var k :| 0 <= k < |r| && r[k] == y;
      if k < pos { assert s[k] == y; } else { assert k != pos; assert s[k - 1] == y; }
    }
  }

  /** Inserting a new element into a duplicate-free sequence keeps it duplicate-free. */
  lemma {:induction false} InsertNoDup<T>(s: seq<T>, pos: nat, x: T)
    requires pos <= |s| && NoDup(s) && x !in s
    ensures NoDup(Insert(s, pos, x))
  {
    var r := Insert(s, pos, x);
    forall i, j | 0 <= i < j < |r| ensures r[i] != r[j] {
      if i == pos {
        assert r[j] == s[j - 1];
      } else if j == pos {
        assert r[i] == s[i];
      } else {
        var i' := if i < pos then i else i - 1;
        var j' := if j < pos then j else j - 1;
        assert r[i] == s[i'] && r[j] == s[j'] && i' < j';
      }
    }
  }

  /** `s` without any occurrence of `x`, the rest in their original order. */
  function Remove<T(==,!new)>(s: seq<T>, x: T): (r: seq<T>)
    ensures forall y :: y in r <==> y in s && y != x
    ensures |r| <= |s|
    ensures x !in s ==> r == s
    ensures NoDup(s) ==> NoDup(r)
  {
    if s == [] then []
    else
      var rest := Remove(s[1..], x);
      assert forall y :: y in s[1..] ==> y in s;
      if s[0] == x then rest
      else
        assert NoDup(s) ==> s[0] !in s[1..];
        [s[0]] + rest
  }
}

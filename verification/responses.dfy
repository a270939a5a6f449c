/** The JSON envelope every endpoint answers with, the exceptions the client
    raises, and the classifier `check_response.check_code` that turns an
    envelope into either itself or one of those exceptions. */
module Responses {
  import opened Prelude
  import opened Text

  /** The `data` member of an envelope: `null` or an object with string members. */
  datatype Data = Null | Object(fields: map<string, string>)
  {
    /** `data[key]`, or `None` where Python would raise (null data, absent key). */
    function Get(key: string): Option<string> {
      match this
      case Null => None
      case Object(m) => if key in m then Some(m[key]) else None
    }
  }

  /** `{code, message, data}` as decoded from the server's JSON reply. */
  datatype Envelope = Envelope(code: int, message: string, data: Data)

  predicate IsSuccess(code: int) {
    200 <= code < 300
  }

  /** The `errno` constants the client raises with. */
  datatype Errno = EPERM | ENOENT | EIO | EACCES | EEXIST | ENOTDIR | EINVAL | ESPIPE

  /** The Python exception classes of the `OSError` family that the client raises. */
  datatype ErrorClass = OSError | PermissionError | FileNotFoundError | NotADirectoryError | FileExistsError

  /** What an `OSError` carries besides its errno: the reply itself, or a text. */
  datatype Detail = Reply(envelope: Envelope) | Message(text: string)

  /** An exception escaping a client operation. */
  datatype Failure =
    | Os(cls: ErrorClass, errno: Errno, detail: Detail)
    /** `TypeError`, e.g. comparing an `int` with `None`, or assigning an attribute */
    | TypeError
    /** `data[name]` on a reply whose data is null or lacks that member */
    | MissingField(name: string)

  /** Python's own mapping from errno to `OSError` subclass (PEP 3151):
      `OSError(e, ...)` constructs an instance of this class. */
  function ClassForErrno(e: Errno): ErrorClass {
    match e
    case EPERM | EACCES => PermissionError
    case ENOENT => FileNotFoundError
    case ENOTDIR => NotADirectoryError
    case EEXIST => FileExistsError
    case EIO | EINVAL | ESPIPE => OSError
  }

  /** Errnos whose bare `OSError(e, ...)` is already the class the client names. */
  predicate Consistent(f: Failure) {
    f.Os? ==> f.cls == ClassForErrno(f.errno)
  }

  // ---------------------------------------------------------------------
  // Classification of an envelope

  const ObjectNotFound: string := "object not found"
  const StorageNotFound: string := "failed get storage: storage not found"
  const NotAFolder: string := "not a folder"
  const FileExists: string := "file exists"
  const FailedGet: string := "failed get "

  /** The four message tests applied to a code-500 reply, in any order. */
  predicate MessageRecognised(m: string) {
    EndsWith(m, ObjectNotFound) || StartsWith(m, StorageNotFound)
    || EndsWith(m, NotAFolder) || EndsWith(m, FileExists) || StartsWith(m, FailedGet)
  }

  /** The errno a code-500 reply gets from its message: the four tests in
      the order `check_code` applies them, EIO when none passes. */
  function ServerErrorErrno(m: string): (e: Errno)
    ensures e == ENOENT || e == ENOTDIR || e == EEXIST || e == EPERM || e == EIO
    ensures e == EIO <==> !MessageRecognised(m)
    ensures e == EPERM ==> StartsWith(m, FailedGet)
  {
    if EndsWith(m, ObjectNotFound) || StartsWith(m, StorageNotFound) then ENOENT
    else if EndsWith(m, NotAFolder) then ENOTDIR
    else if EndsWith(m, FileExists) then EEXIST
    else if StartsWith(m, FailedGet) then EPERM
    else EIO
  }

  /** `check_code`: a 2xx envelope passes through unchanged; anything else
      becomes an `OSError` subclass carrying the envelope. */
  function CheckCode(resp: Envelope): (r: Result<Envelope, Failure>)
    ensures r.Ok? <==> IsSuccess(resp.code)
    ensures r.Ok? ==> r.value == resp
    ensures r.Err? ==> r.error.Os? && r.error.detail == Reply(resp) && Consistent(r.error)
    ensures resp.code == 403 ==> r.Err? && r.error.errno == EACCES
    ensures r.Err? ==>
              (r.error.errno == EIO <==> (resp.code != 403 && !(resp.code == 500 && MessageRecognised(resp.message))))
    ensures r.Err? && r.error.errno != EIO && r.error.errno != EACCES ==> resp.code == 500
    ensures resp.code == 500 ==> r.Err? && r.error.errno == ServerErrorErrno(resp.message)
  {
    var code := resp.code;
    if 200 <= code < 300 then Ok(resp)
    else if code == 403 then Err(Os(PermissionError, EACCES, Reply(resp)))
    else if code == 500 then
      var e := ServerErrorErrno(resp.message);
      Err(Os(ClassForErrno(e), e, Reply(resp)))
    else Err(Os(OSError, EIO, Reply(resp)))
  }

  /** The storage-not-found prefix also passes the later "failed get " test,
      so only the order of the tests makes such a reply ENOENT rather than EPERM. */
  lemma StorageNotFoundIsNotFound(resp: Envelope)
    requires resp.code == 500 && StartsWith(resp.message, StorageNotFound)
    ensures StartsWith(resp.message, FailedGet)
    ensures CheckCode(resp) == Err(Os(FileNotFoundError, ENOENT, Reply(resp)))
  {
    assert StartsWith(StorageNotFound, FailedGet);
    StartsWithTransitive(resp.message, StorageNotFound, FailedGet);
  }

  /** Which errno a code-500 reply gets, by its message alone, first test first. */
  lemma ServerErrorKinds(resp: Envelope)
    requires resp.code == 500
    ensures CheckCode(resp).Err?
    ensures (CheckCode(resp).error.errno == ENOENT)
            <==> (EndsWith(resp.message, ObjectNotFound) || StartsWith(resp.message, StorageNotFound))
    ensures (CheckCode(resp).error.errno == ENOTDIR)
            <==> (EndsWith(resp.message, NotAFolder) && !EndsWith(resp.message, ObjectNotFound)
                  && !StartsWith(resp.message, StorageNotFound))
    ensures (CheckCode(resp).error.errno == EEXIST)
            <==> (EndsWith(resp.message, FileExists) && !EndsWith(resp.message, ObjectNotFound)
                  && !StartsWith(resp.message, StorageNotFound) && !EndsWith(resp.message, NotAFolder))
    ensures (CheckCode(resp).error.errno == EPERM)
            <==> (StartsWith(resp.message, FailedGet) && !EndsWith(resp.message, ObjectNotFound)
                  && !StartsWith(resp.message, StorageNotFound) && !EndsWith(resp.message, NotAFolder)
                  && !EndsWith(resp.message, FileExists))
    ensures (CheckCode(resp).error.errno == EIO) <==> !MessageRecognised(resp.message)
  {
  }

  /** Worked reply: a suffix test. */
  lemma ObjectNotFoundExample()
    ensures CheckCode(Envelope(500, "xxx object not found", Null)).error.errno == ENOENT
  {
    assert "xxx object not found"[4..] == ObjectNotFound;
  }

  /** Worked reply: the storage prefix. */
  lemma StorageNotFoundExample()
    ensures CheckCode(Envelope(500, "failed get storage: storage not found: y", Null)).error.errno == ENOENT
  {
    assert StorageNotFound <= "failed get storage: storage not found: y";
  }

  /** Worked reply: "not a folder" when no ENOENT test passes. */
  lemma NotAFolderExample()
    ensures CheckCode(Envelope(500, "path is not a folder", Null)).error.errno == ENOTDIR
  {
    var m := "path is not a folder";
    assert m[8..] == NotAFolder;
    assert m[4..] != ObjectNotFound;
    assert !StartsWith(m, StorageNotFound) by { assert |m| < |StorageNotFound|; }
  }

  /** Worked reply: "file exists" when no earlier test passes. */
  lemma FileExistsExample()
    ensures CheckCode(Envelope(500, "file exists", Null)).error.errno == EEXIST
  {
    var m := "file exists";
    assert m[..] == FileExists;
    assert !EndsWith(m, ObjectNotFound) && !StartsWith(m, StorageNotFound);
    assert !EndsWith(m, NotAFolder) by { assert |m| < |NotAFolder|; }
  }

  /** Worked reply: a "failed get " message that names no storage. */
  lemma FailedGetExample()
    ensures CheckCode(Envelope(500, "failed get obj", Null)).error.errno == EPERM
  {
    var m := "failed get obj";
    assert m[..|FailedGet|] == FailedGet;
    assert !EndsWith(m, ObjectNotFound) && !StartsWith(m, StorageNotFound);
    assert m[|m| - |NotAFolder|..] != NotAFolder by { assert m[|m| - 1] != NotAFolder[|NotAFolder| - 1]; }
    assert m[|m| - |FileExists|..] != FileExists by { assert m[|m| - 1] != FileExists[|FileExists| - 1]; }
  }
}

/**
  The image upload endpoint (`POST /api/upload`) and the content type the
  image endpoint (`GET /api/uploads/{filename}`) serves the stored file with.
  The clock, the random source and the file system are inputs.
*/
module Upload {
  import opened Wrappers
  import opened Text
  import opened Numerals

  /** The `File` part of a multipart form: client file name, MIME type, size in bytes. */
  datatype UploadedFile = UploadedFile(name: string, mimeType: string, size: nat)

  /** What `formData.get('image')` returns: nothing, a text field, or a file. */
  datatype FormEntry = Absent | TextEntry(text: string) | FileEntry(file: UploadedFile)

  /** The request: a body that is not multipart form data makes `formData()` throw. */
  datatype Request = Unreadable | Form(image: FormEntry)

  /** How the file system calls went. */
  datatype Storage = Stored | MkdirFailed | WriteFailed

  datatype Rejection = NoFile | BadType | TooLarge

  datatype Response = Failed(status: nat, error: string) | Uploaded(url: string, filename: string)

  const MaxSize: nat := 5 * 1024 * 1024

  const AllowedTypes: seq<string> := ["image/jpeg", "image/png", "image/webp"]

  function Message(r: Rejection): string {
    match r
    case NoFile => "No file received"
    case BadType => "Invalid file type. Only JPEG, PNG, and WebP are allowed."
    case TooLarge => "File size too large. Maximum size is 5MB."
  }

  /** The three checks in their order: presence, then type, then size. The first that fails decides. */
  function Validate(entry: FormEntry): (r: Result<UploadedFile, Rejection>)
    ensures r == Err(NoFile) <==> !entry.FileEntry?
    ensures r == Err(BadType) <==> entry.FileEntry? && entry.file.mimeType !in AllowedTypes
    ensures r == Err(TooLarge) <==> entry.FileEntry? && entry.file.mimeType in AllowedTypes && entry.file.size > MaxSize
    ensures r.Ok? <==> entry.FileEntry? && entry.file.mimeType in AllowedTypes && entry.file.size <= MaxSize
    ensures r.Ok? ==> r.value == entry.file
  {
    match entry
    case FileEntry(f) =>
      if f.mimeType !in AllowedTypes then Err(BadType)
      else if f.size > MaxSize then Err(TooLarge)
      else Ok(f)
    case _ => Err(NoFile)
  }

  /** Exactly 5 MiB is accepted; one byte more is not. */
  lemma SizeBoundary(name: string, mimeType: string)
    requires mimeType in AllowedTypes
    ensures Validate(FileEntry(UploadedFile(name, mimeType, 5242880))).Ok?
    ensures Validate(FileEntry(UploadedFile(name, mimeType, 5242881))) == Err(TooLarge)
  {
  }

  /**
    The stored file's extension chosen from its MIME type; ".jpg" is also the
    fallback. Every extension is a '.' followed by letters only.
  */
  function ExtensionFor(mimeType: string): (ext: string)
    ensures ext == ".jpg" || ext == ".png" || ext == ".webp"
    ensures |ext| >= 2 && ext[0] == '.' && forall i :: 1 <= i < |ext| ==> ext[i] != '.'
  {
    if mimeType == "image/jpeg" then ".jpg"
    else if mimeType == "image/png" then ".png"
    else if mimeType == "image/webp" then ".webp"
    else ".jpg"
  }

  /**
    The stored file name: the timestamp, a '-', characters 2 to 14 of the random text, then the extension.
    `random36` is the base-36 text of the random number.
  */
  function StoredName(timestamp: nat, random36: string, extension: string): (n: string)
    ensures var stamp := NatToString(timestamp) + "-";
      && |n| >= |stamp| + |extension|
      && n[..|stamp|] == stamp
      && n[|n| - |extension|..] == extension
      && (|random36| >= 15 ==> n[|stamp|..|n| - |extension|] == random36[2..15])
      && (2 <= |random36| < 15 ==> n[|stamp|..|n| - |extension|] == random36[2..])
      && (|random36| < 2 ==> |n| == |stamp| + |extension|)
  {
    var stamp := NatToString(timestamp) + "-";
    var fragment := Substring(random36, 2, 15);
    var n := stamp + fragment + extension;
    assert n[..|stamp|] == stamp;
    assert n[|stamp|..|n| - |extension|] == fragment;
    assert n[|n| - |extension|..] == extension;
    n
  }

  /**
    `POST /api/upload`. Every path ends in a response; a failure inside the
    handler's `try` is the generic 500.
  */
  function HandleUpload(req: Request, timestamp: nat, random36: string, storage: Storage): (resp: Response)
    ensures req.Unreadable? ==> resp == Failed(500, "Failed to upload file")
    ensures req.Form? && Validate(req.image).Err? ==> resp == Failed(400, Message(Validate(req.image).error))
    ensures resp.Uploaded? <==> req.Form? && Validate(req.image).Ok? && storage == Stored
    ensures resp.Uploaded? ==>
      && resp.url == "/uploads/" + resp.filename
      && resp.filename == StoredName(timestamp, random36, ExtensionFor(req.image.file.mimeType))
    ensures req.Form? && Validate(req.image).Ok? && storage == MkdirFailed ==> resp == Failed(500, "Failed to create uploads directory")
    ensures req.Form? && Validate(req.image).Ok? && storage == WriteFailed ==> resp == Failed(500, "Failed to upload file")
  {
    match req
    case Unreadable => Failed(500, "Failed to upload file")
    case Form(entry) =>
      match Validate(entry)
      case Err(rejection) => Failed(400, Message(rejection))
      case Ok(file) =>
        var filename := StoredName(timestamp, random36, ExtensionFor(file.mimeType));
        match storage
        case MkdirFailed => Failed(500, "Failed to create uploads directory")
        case WriteFailed => Failed(500, "Failed to upload file")
        case Stored => Uploaded("/uploads/" + filename, filename)
  }

  /**
    Node's `path.extname` for a name without separators: from the last '.'
    to the end, unless there is no '.', the only candidate is the leading
    character, or the name is "..".
  */
  function Extname(name: string): (ext: string)
  {
    match LastIndexOf(name, '.')
    case None => ""
    case Some(k) => if k == 0 || name == ".." then "" else name[k..]
  }

  /** The content type the image endpoint sends for a stored file name. */
  function ContentTypeFor(filename: string): (t: string)
    ensures t in AllowedTypes || t == "application/octet-stream"
  {
    var ext := Lower(Extname(filename));
    if ext == ".jpg" || ext == ".jpeg" then "image/jpeg"
    else if ext == ".png" then "image/png"
    else if ext == ".webp" then "image/webp"
    else "application/octet-stream"
  }

  /** The image endpoint's guard: an empty name or one containing ".." is refused with 400. */
  function NameAccepted(filename: string): bool {
    filename != "" && !Includes(filename, "..")
  }

  lemma StoredNameShape(timestamp: nat, random36: string, extension: string)
    requires forall i :: 2 <= i < |random36| ==> random36[i] != '.'
    requires |extension| >= 2 && extension[0] == '.'
    requires forall i :: 1 <= i < |extension| ==> extension[i] != '.'
    ensures var n := StoredName(timestamp, random36, extension);
      && |n| > |extension|
      && n[|n| - |extension|..] == extension
      && forall i :: 0 <= i < |n| - |extension| ==> n[i] != '.'
  {
    var head := NatToString(timestamp) + "-" + Substring(random36, 2, 15);
    var n := head + extension;
    assert StoredName(timestamp, random36, extension) == n;
    assert n[|n| - |extension|..] == extension;
    forall i | 0 <= i < |head| ensures head[i] != '.' {
      var d := NatToString(timestamp);
      if i > |d| {
        var rnd := Substring(random36, 2, 15);
        if |random36| >= 15 {
          assert rnd == random36[2..15];
        } else if |random36| >= 2 {
          assert rnd == random36[2..];
        }
        assert head[i] == rnd[i - |d| - 1];
      }
    }
  }

  /** A name whose only '.' begins its final extension has exactly that extension. */
  lemma ExtnameOfStoredName(n: string, extension: string)
    requires |n| > |extension| >= 2 && extension[0] == '.'
    requires n[|n| - |extension|..] == extension
    requires forall i :: 1 <= i < |extension| ==> extension[i] != '.'
    ensures Extname(n) == extension
  {
    var k := |n| - |extension|;
    assert n[k] == '.';
    assert forall i :: k < i < |n| ==> n[i] != '.' by {
      forall i | k < i < |n| ensures n[i] != '.' {
        assert n[i] == extension[i - k];
      }
    }
    assert LastIndexOf(n, '.') == Some(k) by {
      LastIndexAt(n, '.', k);
    }
  }

  /** No two '.' stand next to each other. */
  lemma NoDoubleDot(n: string, k: nat)
    requires k <= |n|
    requires forall i :: 0 <= i < |n| && i != k ==> n[i] != '.'
    ensures !Includes(n, "..")
  {
    IncludesMeansOccurs(n, "..");
    forall i ensures !OccursAt(n, "..", i) {
      if 0 <= i && i + 2 <= |n| {
        assert n[i..i + 2] == [n[i], n[i + 1]];
      }
    }
  }

  /** A name with no '.' before its extension has its only '.' where the extension starts. */
  lemma SingleDot(n: string, extension: string)
    requires |n| > |extension| >= 1
    requires n[|n| - |extension|..] == extension
    requires forall i :: 0 <= i < |n| - |extension| ==> n[i] != '.'
    requires forall i :: 1 <= i < |extension| ==> extension[i] != '.'
    ensures forall i :: 0 <= i < |n| && i != |n| - |extension| ==> n[i] != '.'
  {
    var k := |n| - |extension|;
    forall i | k < i < |n| ensures n[i] != '.' {
      assert n[i] == n[k..][i - k] == extension[i - k];
    }
  }

  /** A stored name passes the image endpoint's guard and carries its type's extension. */
  lemma StoredNameServed(timestamp: nat, random36: string, mimeType: string)
    requires forall i :: 2 <= i < |random36| ==> random36[i] != '.'
    requires mimeType in AllowedTypes
    ensures NameAccepted(StoredName(timestamp, random36, ExtensionFor(mimeType)))
    ensures ContentTypeFor(StoredName(timestamp, random36, ExtensionFor(mimeType))) == mimeType
  {
    var ext := ExtensionFor(mimeType);
    var n := StoredName(timestamp, random36, ext);
    StoredNameShape(timestamp, random36, ext);
    ExtnameOfStoredName(n, ext);
    var k := |n| - |ext|;
    SingleDot(n, ext);
    NoDoubleDot(n, k);
    ContentTypeOfExtension(n, mimeType);
  }

  /**
    A file that the upload endpoint stores is served back: its name passes
    the image endpoint's guard and is served with the MIME type it was
    uploaded with. `random36` is "0." followed by base-36 digits, so it has
    no '.' after index 1.
  */
  lemma UploadThenServe(req: Request, timestamp: nat, random36: string)
    requires forall i :: 2 <= i < |random36| ==> random36[i] != '.'
    requires HandleUpload(req, timestamp, random36, Stored).Uploaded?
    ensures var resp := HandleUpload(req, timestamp, random36, Stored);
      && NameAccepted(resp.filename)
      && ContentTypeFor(resp.filename) == req.image.file.mimeType
  {
    StoredNameServed(timestamp, random36, req.image.file.mimeType);
  }

  /** A name carrying the extension of an accepted type is served as that type. */
  lemma ContentTypeOfExtension(n: string, mimeType: string)
    requires mimeType in AllowedTypes
    requires Extname(n) == ExtensionFor(mimeType)
    ensures ContentTypeFor(n) == mimeType
  {
    var ext := Extname(n);
    if mimeType == "image/jpeg" {
      assert ext == ".jpg";
      assert Lower(ext) == ".jpg";
    } else if mimeType == "image/png" {
      assert ext == ".png";
      assert Lower(ext) == ".png";
    } else {
      assert ext == ".webp";
      assert Lower(ext) == ".webp";
    }
  }

  /** For every accepted type the extension names that type; the ".jpg" fallback is never reached. */
  lemma ExtensionRoundTrip(mimeType: string)
    requires mimeType in AllowedTypes
    ensures ContentTypeFor("x" + ExtensionFor(mimeType)) == mimeType
  {
    var ext := ExtensionFor(mimeType);
    ExtnameOfStoredName("x" + ext, ext);
    ContentTypeOfExtension("x" + ext, mimeType);
  }
}

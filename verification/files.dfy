/** File upload (`upload_file` in src/routes/files.rs): the multipart fields
    are folded into three optional slots, the slots are checked in a fixed
    order, the credential is resolved, and the upstream request is built. */
module Files {
  import opened Wrappers
  import opened Headers
  import opened Credentials

  /** One multipart field: its name, its file name, and what reading its
      body with `bytes()` or with `text()` would yield. */
  datatype Field = Field(
    name: Option<string>,
    fileName: Option<string>,
    bytes: Result<seq<byte>, string>,
    text: Result<string, string>)

  /** One call of `next_field`: a field, or a failure of the multipart
      stream. The end of the sequence is the end of the stream. */
  datatype NextField = Ready(field: Field) | Broken(detail: string)

  datatype UploadError =
    | MultipartError(detail: string)
    | FileReadError(detail: string)
    | PurposeReadError(detail: string)
    | FileNotProvided
    | FilenameNotProvided
    | PurposeNotProvided
    | Unauthorized(cause: AuthError)
  {
    /** The failures of the field loop itself. */
    predicate IsReadError() {
      MultipartError? || FileReadError? || PurposeReadError?
    }

    /** The text of the `AppError` the handler returns; a credential error
        keeps the resolver's text. */
    function Message(): (m: string)
      ensures MultipartError? <==> "Multipart error: " <= m
      ensures FileReadError? <==> "File read error: " <= m
      ensures PurposeReadError? <==> "Purpose read error: " <= m
      ensures Unauthorized? ==> m == cause.Message()
    {
      match this
      case MultipartError(d) =>
        var m := "Multipart error: " + d;
        assert m[0] == 'M';
        m
      case FileReadError(d) =>
        var m := "File read error: " + d;
        assert m[0] == 'F';
        m
      case PurposeReadError(d) =>
        var m := "Purpose read error: " + d;
        assert m[0] == 'P';
        m
      case FileNotProvided =>
        var m := "File not provided";
        assert m[5] == 'n';
        m
      case FilenameNotProvided =>
        var m := "Filename not provided";
        assert m[4] == 'n';
        m
      case PurposeNotProvided =>
        var m := "Purpose not provided";
        assert m[8] == 'n';
        m
      case Unauthorized(cause) =>
        var m := cause.Message();
        assert m[0] == 'A' || m[0] == 'Н';
        m
    }
  }

  /** The three mutable locals of the field loop. */
  datatype Slots = Slots(fileBytes: Option<seq<byte>>, filename: Option<string>, purpose: Option<string>)

  const NoSlots := Slots(None, None, None)

  /** A field without a name is treated as named "". */
  function FieldName(f: Field): string {
    match f.name
    case Some(n) => n
    case None => ""
  }

  /** One pass of the loop body. */
  function Step(s: Slots, next: NextField): (r: Result<Slots, UploadError>)
    ensures r.Failure? ==> r.error.IsReadError()
    ensures r.Success? ==> next.Ready?
    ensures r.Success? && FieldName(next.field) != "file" ==>
      r.value.fileBytes == s.fileBytes && r.value.filename == s.filename
    ensures r.Success? && FieldName(next.field) != "purpose" ==> r.value.purpose == s.purpose
    ensures r.Success? ==> r.value.fileBytes.None? ==> s.fileBytes.None?
  {
    match next
    case Broken(d) => Failure(MultipartError(d))
    case Ready(f) =>
      if FieldName(f) == "file" then
        match f.bytes
        case Failure(d) => Failure(FileReadError(d))
        case Success(b) => Success(s.(fileBytes := Some(b), filename := f.fileName))
      else if FieldName(f) == "purpose" then
        match f.text
        case Failure(d) => Failure(PurposeReadError(d))
        case Success(t) => Success(s.(purpose := Some(t)))
      else Success(s)
  }

  /** Different upload errors carry different texts, so the single
      string of `AppError` still identifies the failure and its detail. */
  lemma UploadMessagesDistinguishErrors(e1: UploadError, e2: UploadError)
    ensures e1.Message() == e2.Message() ==> e1 == e2
  {
    var m1, m2 := e1.Message(), e2.Message();
    if m1 == m2 {
      match e1
      case MultipartError(d) => assert m2[17..] == d;
      case FileReadError(d) => assert m2[17..] == d;
      case PurposeReadError(d) => assert m2[20..] == d;
      case _ =>
    }
  }

  /** The loop, as a left fold that stops at the first failure. */
  function CollectFrom(s: Slots, stream: seq<NextField>): (r: Result<Slots, UploadError>)
    ensures r.Failure? ==> r.error.IsReadError()
    ensures r.Success? && (s.filename.Some? ==> s.fileBytes.Some?) ==>
      (r.value.filename.Some? ==> r.value.fileBytes.Some?)
    decreases |stream|
  {
    if stream == [] then Success(s)
    else
      match Step(s, stream[0])
      case Failure(e) => Failure(e)
      case Success(s') => CollectFrom(s', stream[1..])
  }

  function Collect(stream: seq<NextField>): (r: Result<Slots, UploadError>)
    ensures r.Failure? ==> r.error.IsReadError()
    ensures r.Success? && r.value.filename.Some? ==> r.value.fileBytes.Some?
  {
    CollectFrom(NoSlots, stream)
  }

  /** The purposes the handler can produce. */
  datatype FilePurpose = Assistants | FineTune

  /** The purpose mapping: exact and case-sensitive, with Assistants as
      the fallback for every other text. */
  function PurposeOf(p: string): (r: FilePurpose)
    ensures r == FineTune <==> p == "fine-tune"
  {
    match p
    case "assistants" => Assistants
    case "fine-tune" => FineTune
    case _ => Assistants
  }

  /** The SDK's expiry policy for an uploaded file. */
  datatype ExpiresAfter = ExpiresAfter(anchor: string, seconds: nat)

  datatype CreateFileRequest = CreateFileRequest(
    filename: string,
    bytes: seq<byte>,
    purpose: FilePurpose,
    expiresAfter: Option<ExpiresAfter>)

  /** What the handler hands to the upstream client: its configuration and
      the request. */
  datatype OutboundUpload = OutboundUpload(config: Config, request: CreateFileRequest)

  /** The handler up to the upstream call. */
  function Upload(headers: HeaderMap, stream: seq<NextField>): (r: Result<OutboundUpload, UploadError>)
    ensures r.Success? ==> Resolve(headers, false) == Success(r.value.config)
    ensures r.Success? ==> r.value.config.extraHeaders == [] && r.value.request.expiresAfter.None?
    ensures r.Failure? && r.error.Unauthorized? ==> Resolve(headers, false) == Failure(r.error.cause)
  {
    match Collect(stream)
    case Failure(e) => Failure(e)
    case Success(s) =>
      if s.fileBytes.None? then Failure(FileNotProvided)
      else if s.filename.None? then Failure(FilenameNotProvided)
      else if s.purpose.None? then Failure(PurposeNotProvided)
      else
        match Resolve(headers, false)
        case Failure(e) => Failure(Unauthorized(e))
        case Success(config) =>
          var request := CreateFileRequest(s.filename.value, s.fileBytes.value, PurposeOf(s.purpose.value), None);
          Success(OutboundUpload(config, request))
  }

  /** `upload_file` up to the upstream call: the field loop over three
      mutable locals, then the checks, the credential and the request. */
  method UploadFile(headers: HeaderMap, stream: seq<NextField>) returns (r: Result<OutboundUpload, UploadError>)
    ensures r == Upload(headers, stream)
  {
    var fileBytes: Option<seq<byte>> := None;
    var filename: Option<string> := None;
    var purpose: Option<string> := None;
    var i := 0;
    while i < |stream|
      invariant 0 <= i <= |stream|
      invariant CollectFrom(Slots(fileBytes, filename, purpose), stream[i..]) == Collect(stream)
    {
      assert stream[i..][1..] == stream[i + 1..];
      match stream[i]
      case Broken(d) =>
        r := Failure(MultipartError(d));
        return;
      case Ready(field) =>
        var name := FieldName(field);
        if name == "file" {
          filename := field.fileName;
          match field.bytes
          case Failure(d) =>
            r := Failure(FileReadError(d));
            return;
          case Success(b) =>
            fileBytes := Some(b);
        } else if name == "purpose" {
          match field.text
          case Failure(d) =>
            r := Failure(PurposeReadError(d));
            return;
          case Success(t) =>
            purpose := Some(t);
        }
      i := i + 1;
    }
    if fileBytes.None? {
      r := Failure(FileNotProvided);
      return;
    }
    if filename.None? {
      r := Failure(FilenameNotProvided);
      return;
    }
    if purpose.None? {
      r := Failure(PurposeNotProvided);
      return;
    }
    var client := Resolve(headers, false);
    if client.Failure? {
      r := Failure(Unauthorized(client.error));
      return;
    }
    var filePurpose := PurposeOf(purpose.value);
    var request := CreateFileRequest(filename.value, fileBytes.value, filePurpose, None);
    r := Success(OutboundUpload(client.value, request));
  }
}

/** Properties of the field loop and of the upload handler. */
module FilesProperties {
  import opened Wrappers
  import opened Headers
  import opened Credentials
  import opened Files

  /** `next` is a field whose name (or "" when it has none) is `n`. */
  predicate Named(next: NextField, n: string) {
    next.Ready? && FieldName(next.field) == n
  }

  /** `j` is the last field of `stream` named `n`. */
  predicate IsLast(stream: seq<NextField>, n: string, j: int) {
    && 0 <= j < |stream|
    && Named(stream[j], n)
    && forall k :: j < k < |stream| ==> !Named(stream[k], n)
  }

  /** `next` is a field, and the read the loop performs on it succeeds. */
  predicate ReadsCleanly(next: NextField) {
    && next.Ready?
    && (FieldName(next.field) == "file" ==> next.field.bytes.Success?)
    && (FieldName(next.field) == "purpose" ==> next.field.text.Success?)
  }

  /** The error with which the loop gives up on `next`. */
  function ReadError(next: NextField): UploadError
    requires !ReadsCleanly(next)
  {
    match next
    case Broken(d) => MultipartError(d)
    case Ready(f) =>
      if FieldName(f) == "file" then FileReadError(f.bytes.error)
      else PurposeReadError(f.text.error)
  }

  // ---------------------------------------------------------------------
  // The fold

  /** Folding `a + b` folds `a`, then `b` from where `a` left off. */
  lemma {:induction false} CollectFromConcat(s: Slots, a: seq<NextField>, b: seq<NextField>)
    ensures CollectFrom(s, a + b) ==
      match CollectFrom(s, a)
      case Failure(e) => Failure(e)
      case Success(t) => CollectFrom(t, b)
    decreases |a|
  {
    if a == [] {
      assert a + b == b;
    } else {
      assert (a + b)[0] == a[0];
      assert (a + b)[1..] == a[1..] + b;
      match Step(s, a[0])
      case Failure(e) =>
      case Success(s') => CollectFromConcat(s', a[1..], b);
    }
  }

  /** The fold succeeds exactly when every call of `next_field` yields a
      field and every read the loop performs succeeds. */
  lemma {:induction false} CollectFromSucceeds(s: Slots, stream: seq<NextField>)
    ensures CollectFrom(s, stream).Success? <==> forall i :: 0 <= i < |stream| ==> ReadsCleanly(stream[i])
    decreases |stream|
  {
    if stream != [] {
      match Step(s, stream[0])
      case Failure(e) =>
        assert !ReadsCleanly(stream[0]);
      case Success(s') =>
        assert ReadsCleanly(stream[0]);
        CollectFromSucceeds(s', stream[1..]);
        assert forall i :: 1 <= i < |stream| ==> stream[i] == stream[1..][i - 1];
    }
  }

  /** The first field that cannot be read decides the error; nothing after
      it is looked at. */
  lemma FirstReadErrorWins(stream: seq<NextField>, i: int)
    requires 0 <= i < |stream|
    requires forall k :: 0 <= k < i ==> ReadsCleanly(stream[k])
    requires !ReadsCleanly(stream[i])
    ensures Collect(stream) == Failure(ReadError(stream[i]))
  {
    var a, rest := stream[..i], stream[i + 1..];
    assert stream == a + ([stream[i]] + rest);
    CollectFromSucceeds(NoSlots, a);
    CollectFromConcat(NoSlots, a, [stream[i]] + rest);
    var t := CollectFrom(NoSlots, a).value;
    assert CollectFrom(t, [stream[i]] + rest) == Failure(ReadError(stream[i]));
  }

  /** A field named neither "file" nor "purpose", including one without a
      name, changes nothing wherever it appears. */
  lemma IgnoredField(a: seq<NextField>, f: Field, b: seq<NextField>)
    requires FieldName(f) != "file" && FieldName(f) != "purpose"
    ensures Collect(a + [Ready(f)] + b) == Collect(a + b)
  {
    assert a + [Ready(f)] + b == a + ([Ready(f)] + b);
    CollectFromConcat(NoSlots, a, [Ready(f)] + b);
    CollectFromConcat(NoSlots, a, b);
    assert ([Ready(f)] + b)[1..] == b;
  }

  /** Fields not named "file" leave the file slots alone. */
  lemma {:induction false} FoldKeepsFileSlots(s: Slots, b: seq<NextField>)
    requires CollectFrom(s, b).Success?
    requires forall k :: 0 <= k < |b| ==> !Named(b[k], "file")
    ensures CollectFrom(s, b).value.fileBytes == s.fileBytes
    ensures CollectFrom(s, b).value.filename == s.filename
    decreases |b|
  {
    if b != [] {
      assert !Named(b[0], "file");
      FoldKeepsFileSlots(Step(s, b[0]).value, b[1..]);
    }
  }

  /** Fields not named "purpose" leave the purpose slot alone. */
  lemma {:induction false} FoldKeepsPurposeSlot(s: Slots, b: seq<NextField>)
    requires CollectFrom(s, b).Success?
    requires forall k :: 0 <= k < |b| ==> !Named(b[k], "purpose")
    ensures CollectFrom(s, b).value.purpose == s.purpose
    decreases |b|
  {
    if b != [] {
      assert !Named(b[0], "purpose");
      FoldKeepsPurposeSlot(Step(s, b[0]).value, b[1..]);
    }
  }

  /** The fold splits around position `j`. */
  lemma SplitAt(stream: seq<NextField>, j: int)
    requires 0 <= j < |stream|
    requires Collect(stream).Success?
    ensures Collect(stream[..j]).Success?
    ensures Step(Collect(stream[..j]).value, stream[j]).Success?
    ensures CollectFrom(Step(Collect(stream[..j]).value, stream[j]).value, stream[j + 1..]) == Collect(stream)
  {
    var a, rest := stream[..j], stream[j + 1..];
    assert stream == a + ([stream[j]] + rest);
    CollectFromConcat(NoSlots, a, [stream[j]] + rest);
    assert ([stream[j]] + rest)[1..] == rest;
  }

  /** Last write wins for the file: the last "file" field supplies both the
      bytes and the file name, and a missing file name there resets the
      slot to None whatever earlier fields said. */
  lemma LastFileFieldWins(stream: seq<NextField>, j: int)
    requires Collect(stream).Success?
    requires IsLast(stream, "file", j)
    ensures stream[j].field.bytes.Success?
    ensures Collect(stream).value.fileBytes == Some(stream[j].field.bytes.value)
    ensures Collect(stream).value.filename == stream[j].field.fileName
  {
    SplitAt(stream, j);
    var t' := Step(Collect(stream[..j]).value, stream[j]).value;
    FoldKeepsFileSlots(t', stream[j + 1..]);
  }

  /** Last write wins for the purpose. */
  lemma LastPurposeFieldWins(stream: seq<NextField>, j: int)
    requires Collect(stream).Success?
    requires IsLast(stream, "purpose", j)
    ensures stream[j].field.text.Success?
    ensures Collect(stream).value.purpose == Some(stream[j].field.text.value)
  {
    SplitAt(stream, j);
    var t' := Step(Collect(stream[..j]).value, stream[j]).value;
    FoldKeepsPurposeSlot(t', stream[j + 1..]);
  }

  /** Without a "file" field both file slots stay empty. */
  lemma NoFileField(stream: seq<NextField>)
    requires Collect(stream).Success?
    requires forall k :: 0 <= k < |stream| ==> !Named(stream[k], "file")
    ensures Collect(stream).value.fileBytes.None? && Collect(stream).value.filename.None?
  {
    FoldKeepsFileSlots(NoSlots, stream);
  }

  /** Without a "purpose" field the purpose slot stays empty. */
  lemma NoPurposeField(stream: seq<NextField>)
    requires Collect(stream).Success?
    requires forall k :: 0 <= k < |stream| ==> !Named(stream[k], "purpose")
    ensures Collect(stream).value.purpose.None?
  {
    FoldKeepsPurposeSlot(NoSlots, stream);
  }

  /** A field named `n` means there is a last one. */
  lemma LastExists(stream: seq<NextField>, n: string, k: int)
    requires 0 <= k < |stream| && Named(stream[k], n)
    ensures exists j :: IsLast(stream, n, j)
    decreases |stream| - k
  {
    if forall m :: k < m < |stream| ==> !Named(stream[m], n) {
      assert IsLast(stream, n, k);
    } else {
      var m :| k < m < |stream| && Named(stream[m], n);
      LastExists(stream, n, m);
    }
  }

  // ---------------------------------------------------------------------
  // The handler

  /** A well-formed body without a "file" field fails with "File not
      provided", whatever the headers say, even with no Authorization. */
  lemma MissingFileIgnoresCredential(headers: HeaderMap, stream: seq<NextField>)
    requires forall k :: 0 <= k < |stream| ==> ReadsCleanly(stream[k]) && !Named(stream[k], "file")
    ensures Upload(headers, stream) == Failure(FileNotProvided)
  {
    CollectFromSucceeds(NoSlots, stream);
    NoFileField(stream);
  }

  /** When the last "file" field has no file name the upload fails with
      "Filename not provided", even if an earlier one had a name. */
  lemma MissingFilenameFails(headers: HeaderMap, stream: seq<NextField>, j: int)
    requires forall k :: 0 <= k < |stream| ==> ReadsCleanly(stream[k])
    requires IsLast(stream, "file", j) && stream[j].field.fileName.None?
    ensures Upload(headers, stream) == Failure(FilenameNotProvided)
  {
    CollectFromSucceeds(NoSlots, stream);
    LastFileFieldWins(stream, j);
  }

  /** A purpose field is required, although "assistants" is what an
      unrecognised one maps to. */
  lemma MissingPurposeFails(headers: HeaderMap, stream: seq<NextField>, j: int)
    requires forall k :: 0 <= k < |stream| ==> ReadsCleanly(stream[k]) && !Named(stream[k], "purpose")
    requires IsLast(stream, "file", j) && stream[j].field.fileName.Some?
    ensures Upload(headers, stream) == Failure(PurposeNotProvided)
  {
    CollectFromSucceeds(NoSlots, stream);
    LastFileFieldWins(stream, j);
    NoPurposeField(stream);
  }

  /** Every error but a credential error is independent of the headers:
      the fields are collected and checked before the credential is looked at. */
  lemma FieldErrorsPrecedeCredential(h1: HeaderMap, h2: HeaderMap, stream: seq<NextField>)
    requires Upload(h1, stream).Failure? && !Upload(h1, stream).error.Unauthorized?
    ensures Upload(h2, stream) == Upload(h1, stream)
  {
  }

  /** A credential error is reported only for a body whose three slots are
      all filled, and it is the resolver's error with the flag off. */
  lemma CredentialErrorComesLast(headers: HeaderMap, stream: seq<NextField>)
    requires Upload(headers, stream).Failure? && Upload(headers, stream).error.Unauthorized?
    ensures Collect(stream).Success?
    ensures Collect(stream).value.fileBytes.Some?
    ensures Collect(stream).value.filename.Some?
    ensures Collect(stream).value.purpose.Some?
    ensures Resolve(headers, false) == Failure(Upload(headers, stream).error.cause)
  {
  }

  /** On success the request carries the last file field's bytes and name,
      the mapped purpose of the last purpose field and no expiry, and the
      client is configured without the beta header. */
  lemma UploadRequestContents(headers: HeaderMap, stream: seq<NextField>, j: int, p: int)
    requires Upload(headers, stream).Success?
    requires IsLast(stream, "file", j) && IsLast(stream, "purpose", p)
    ensures stream[j].field.bytes.Success? && stream[j].field.fileName.Some?
    ensures stream[p].field.text.Success?
    ensures Upload(headers, stream).value.request == CreateFileRequest(
      stream[j].field.fileName.value,
      stream[j].field.bytes.value,
      PurposeOf(stream[p].field.text.value),
      None)
    ensures Resolve(headers, false).Success?
    ensures Upload(headers, stream).value.config == Resolve(headers, false).value
    ensures Upload(headers, stream).value.config.extraHeaders == []
  {
    LastFileFieldWins(stream, j);
    LastPurposeFieldWins(stream, p);
  }

  /** The upload succeeds exactly when every field reads cleanly, the last
      "file" field has a file name, some "purpose" field exists and the
      credential resolves. */
  lemma UploadSucceedsIff(headers: HeaderMap, stream: seq<NextField>)
    ensures Upload(headers, stream).Success? <==>
      && (forall k :: 0 <= k < |stream| ==> ReadsCleanly(stream[k]))
      && (exists j :: IsLast(stream, "file", j) && stream[j].field.fileName.Some?)
      && (exists p :: 0 <= p < |stream| && Named(stream[p], "purpose"))
      && Resolve(headers, false).Success?
  {
    CollectFromSucceeds(NoSlots, stream);
    if Collect(stream).Success? {
      var s := Collect(stream).value;
      if exists k :: 0 <= k < |stream| && Named(stream[k], "file") {
        var k :| 0 <= k < |stream| && Named(stream[k], "file");
        LastExists(stream, "file", k);
        var j :| IsLast(stream, "file", j);
        LastFileFieldWins(stream, j);
        forall j' | IsLast(stream, "file", j') ensures j' == j { }
      } else {
        NoFileField(stream);
      }
      if exists k :: 0 <= k < |stream| && Named(stream[k], "purpose") {
        var k :| 0 <= k < |stream| && Named(stream[k], "purpose");
        LastExists(stream, "purpose", k);
        var p :| IsLast(stream, "purpose", p);
        LastPurposeFieldWins(stream, p);
      } else {
        NoPurposeField(stream);
      }
    }
  }
}

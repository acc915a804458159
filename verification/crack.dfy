/** The `/crack` request handler, apart from its HTTP and file plumbing:
    the extension check, the search with the handler's default settings, and
    the mapping of the search's result to a status code and a JSON body. */
module Crack {
  import opened Outcomes
  import opened Keyspace
  import opened Search
  import opened Verifiers
  import opened Dispatch

  /** The handler calls `brute_force_archive(temp_path)` with its defaults:
      passwords of up to 4 characters from `string.digits`. */
  const DefaultMaxLength: int := 4
  const DefaultCharset: Charset := "0123456789"

  /** The temporary file is created with the upload's lower-cased extension
      as its suffix; the rest of its name plays no part. */
  const TempStem: string := "/tmp/upload"

  const AllowedExtensions: seq<string> := [".zip", ".rar"]

  /** A POST to `/crack`: no `file` part, or a file with its client-side name. */
  datatype Request = NoFile | Upload(filename: string)

  /** The JSON body: `{"error": ...}`, `{"message": ...}` or `{"password": ...}`. */
  datatype Body = Error(error: string) | Message(message: string) | Password(password: string)

  datatype Response = Response(body: Body, status: int)

  const NotProtected: string := "Archive is not password protected"
  const NotFound: string := "Password not found within the search space"

  /** How the search's result becomes a response: the sentinel is 200 with a
      message, a non-empty password 200 with the password, `None` (or an
      empty string) 404, and an exception 500 with its message. */
  function Respond(result: Result<Option<string>>): (resp: Response)
    ensures resp.status == 500 <==> result.Raised?
    ensures result.Raised? ==> resp.body == Error(result.message)
    ensures resp.status == 404 <==> result == Ok(None) || result == Ok(Some(""))
    ensures resp.status == 404 ==> resp.body == Error(NotFound)
    ensures resp.body == Message(NotProtected) <==> result == Ok(Some(NoPasswordNeeded))
    ensures resp.body.Password? <==>
              result.Ok? && result.value.Some? && result.value.value != NoPasswordNeeded && result.value.value != ""
    ensures resp.body.Password? ==> resp.status == 200 && result == Ok(Some(resp.body.password))
    ensures resp.status == 200 || resp.status == 404 || resp.status == 500
  {
    match result
    case Raised(m) => Response(Error(m), 500)
    case Ok(value) =>
      if value == Some(NoPasswordNeeded) then Response(Message(NotProtected), 200)
      else if value.Some? && value.value != "" then Response(Password(value.value), 200)
      else Response(Error(NotFound), 404)
  }

  /** The request is turned away before any search. */
  predicate Rejected(req: Request)
  {
    req.NoFile? || req.filename == "" || Lower(Extension(req.filename)) !in AllowedExtensions
  }

  /** The ZIP search runs: the archive opened and some entry is encrypted. */
  predicate ZipSearched(archive: Archive)
  {
    archive.zipEntries.Ok? && AnyEncrypted(archive.zipEntries.value)
  }

  /** The entry the corrected ZIP search tries candidates on. */
  function SearchedEntry(archive: Archive): ZipEntry
    requires ZipSearched(archive)
  {
    archive.zipEntries.value[FirstEncrypted(archive.zipEntries.value)]
  }

  /** The read failures that `brute_force_zip` takes for a wrong password. */
  predicate WrongZipPassword(r: ZipRead)
  {
    r.RuntimeError? || r.BadZipFile?
  }

  /** `p` opens the archive: for ZIP the searched entry reads with it, for
      RAR `7z t` exits with 0. */
  ghost predicate Opens(ext: string, tools: Tools, archive: Archive, p: string)
  {
    if ext == ".zip" then
      ZipSearched(archive) && archive.read(SearchedEntry(archive), p) == Extracted
    else
      tools.sevenZip && archive.test(p) == Exited(0)
  }

  /** The probe found the archive unprotected. */
  ghost predicate Unprotected(ext: string, tools: Tools, archive: Archive)
  {
    if ext == ".zip" then
      archive.zipEntries.Ok? && !AnyEncrypted(archive.zipEntries.value)
    else
      tools.sevenZip && archive.probe == Exited(0)
  }

  /** The probe let the search run. */
  ghost predicate SearchRuns(ext: string, tools: Tools, archive: Archive)
  {
    if ext == ".zip" then ZipSearched(archive)
    else tools.sevenZip && archive.probe != Exited(0) && !archive.probe.Failed?
  }

  /** The first `n` candidates were rejected as wrong passwords. */
  ghost predicate RejectsBefore(ext: string, tools: Tools, archive: Archive, all: seq<string>, n: nat)
    requires n <= |all|
  {
    if ext == ".zip" then
      && ZipSearched(archive)
      && forall k :: 0 <= k < n ==> WrongZipPassword(archive.read(SearchedEntry(archive), all[k]))
    else
      forall k :: 0 <= k < n ==> archive.test(all[k]) != Exited(0)
  }

  /** Every candidate was tried and rejected as a wrong password. */
  ghost predicate RejectsAll(ext: string, tools: Tools, archive: Archive, charset: Charset, maxLength: int)
  {
    var all := Candidates(charset, maxLength);
    && RejectsBefore(ext, tools, archive, all, |all|)
    && (ext != ".zip" ==> tools.sevenZip && archive.probe != Exited(0))
  }

  /** Candidate `n` is the first that opens the archive, and the search reaches it. */
  ghost predicate FirstOpener(ext: string, tools: Tools, archive: Archive, charset: Charset, maxLength: int, n: nat)
  {
    var all := Candidates(charset, maxLength);
    && n < |all|
    && SearchRuns(ext, tools, archive)
    && RejectsBefore(ext, tools, archive, all, n)
    && Opens(ext, tools, archive, all[n])
  }

  /** Reading the ZIP entry with candidate `n` fails with an error other than
      a wrong password, and every earlier candidate was a wrong password. */
  ghost predicate FirstFault(ext: string, tools: Tools, archive: Archive, charset: Charset, maxLength: int, n: nat)
  {
    var all := Candidates(charset, maxLength);
    && ext == ".zip"
    && n < |all|
    && RejectsBefore(ext, tools, archive, all, n)
    && archive.read(SearchedEntry(archive), all[n]).OtherError?
  }

  /** The search raises: the ZIP archive cannot be opened or a read fails
      badly; for RAR, 7z is missing or the probe itself raises. */
  ghost predicate Raises(ext: string, tools: Tools, archive: Archive, charset: Charset, maxLength: int)
  {
    if ext == ".zip" then
      archive.zipEntries.Raised? || exists n: nat :: FirstFault(ext, tools, archive, charset, maxLength, n)
    else
      !tools.sevenZip || archive.probe.Failed?
  }

  /** What a response after a search says about the archive: a password
      is a candidate that opens it, the "not protected" message means the
      probe found no protection, and 404 means every candidate failed. */
  ghost predicate Justified(ext: string, tools: Tools, archive: Archive, charset: Charset, maxLength: int, resp: Response)
  {
    && (resp.body.Password? ==>
          var p := resp.body.password;
          1 <= |p| <= maxLength && Over(p, charset) && Opens(ext, tools, archive, p))
    && (resp.body == Message(NotProtected) ==> Unprotected(ext, tools, archive))
    && (resp.status == 404 ==> RejectsAll(ext, tools, archive, charset, maxLength))
  }

  ghost predicate AnswersUnprotected(ext: string, tools: Tools, archive: Archive, resp: Response)
  {
    Unprotected(ext, tools, archive) ==> resp == Response(Message(NotProtected), 200)
  }

  ghost predicate AnswersOpener(ext: string, tools: Tools, archive: Archive, charset: Charset, maxLength: int, resp: Response)
  {
    forall n: nat :: FirstOpener(ext, tools, archive, charset, maxLength, n) ==>
      resp == Response(Password(Candidates(charset, maxLength)[n]), 200)
  }

  ghost predicate AnswersRejected(ext: string, tools: Tools, archive: Archive, charset: Charset, maxLength: int, resp: Response)
  {
    RejectsAll(ext, tools, archive, charset, maxLength) && (ext != ".zip" ==> !archive.probe.Failed?) ==>
      resp == Response(Error(NotFound), 404)
  }

  /** 500 exactly when the search raises, with the message it raises. */
  ghost predicate AnswersRaised(ext: string, tools: Tools, archive: Archive, charset: Charset, maxLength: int, resp: Response)
  {
    && (resp.status == 500 <==> Raises(ext, tools, archive, charset, maxLength))
    && (ext == ".zip" && archive.zipEntries.Raised? ==>
          resp.body == Error(ZipErrorPrefix + archive.zipEntries.message))
    && (forall n: nat :: FirstFault(ext, tools, archive, charset, maxLength, n) ==>
          resp.body == Error(ZipErrorPrefix + archive.read(SearchedEntry(archive), Candidates(charset, maxLength)[n]).message))
    && (ext != ".zip" && tools.sevenZip && archive.probe.Failed? ==> resp.body == Error(archive.probe.message))
    && (ext != ".zip" && !tools.sevenZip ==>
          resp.body == Error(if tools.unrar || tools.winrar then RarNeeds7z + Join(Available(tools), ", ") else RarNoTools))
  }

  /** The response the archive's behaviour calls for, in every case. */
  ghost predicate Complete(ext: string, tools: Tools, archive: Archive, charset: Charset, maxLength: int, resp: Response)
  {
    && AnswersUnprotected(ext, tools, archive, resp)
    && AnswersOpener(ext, tools, archive, charset, maxLength, resp)
    && AnswersRejected(ext, tools, archive, charset, maxLength, resp)
    && AnswersRaised(ext, tools, archive, charset, maxLength, resp)
  }

  /** The handler. */
  function Crack(req: Request, tools: Tools, archive: Archive): (resp: Response)
    ensures resp.status == 400 <==> Rejected(req)
    ensures req.NoFile? ==> resp.body == Error("No file uploaded")
    ensures req.Upload? && req.filename == "" ==> resp.body == Error("No file selected")
    ensures req.Upload? && req.filename != "" && Rejected(req) ==> resp.body == Error("Only ZIP and RAR files are supported")
    ensures !Rejected(req) ==>
              var ext := Lower(Extension(req.filename));
              && resp == Respond(BruteForceArchive(TempStem + ext, DefaultMaxLength, DefaultCharset, tools, archive).result)
              && Justified(ext, tools, archive, DefaultCharset, DefaultMaxLength, resp)
              && Complete(ext, tools, archive, DefaultCharset, DefaultMaxLength, resp)
  {
    match req
    case NoFile => Response(Error("No file uploaded"), 400)
    case Upload(name) =>
      if name == "" then Response(Error("No file selected"), 400)
      else
        var ext := Lower(Extension(name));
        if ext !in AllowedExtensions then Response(Error("Only ZIP and RAR files are supported"), 400)
        else
          HandlerSearch(ext, tools, archive, DefaultCharset, DefaultMaxLength);
          Respond(BruteForceArchive(TempStem + ext, DefaultMaxLength, DefaultCharset, tools, archive).result)
  }

  /** The search on the temporary file, mapped to a response, is both
      justified and complete, and never a 400. */
  lemma HandlerSearch(ext: string, tools: Tools, archive: Archive, charset: Charset, maxLength: int)
    requires ext in AllowedExtensions
    requires maxLength < |NoPasswordNeeded|
    ensures var resp := Respond(BruteForceArchive(TempStem + ext, maxLength, charset, tools, archive).result);
            && resp.status != 400
            && Justified(ext, tools, archive, charset, maxLength, resp)
            && Complete(ext, tools, archive, charset, maxLength, resp)
  {
    TempPathExtension(ext);
    var r := BruteForceArchive(TempStem + ext, maxLength, charset, tools, archive);
    assert r == Route(ext, maxLength, charset, tools, archive);
    if ext == ".zip" {
      ZipResponse(tools, archive, charset, maxLength);
      ZipComplete(tools, archive, charset, maxLength);
    } else {
      assert ext == ".rar";
      RarResponse(tools, archive, charset, maxLength);
      RarComplete(tools, archive, charset, maxLength);
    }
  }

  // ---------------------------------------------------------------------
  // Soundness: what each response claims holds

  /** The ZIP search's result, mapped to a response, is justified. The
      sentinel cannot be a candidate, since it is longer than any. */
  lemma ZipResponse(tools: Tools, archive: Archive, charset: Charset, maxLength: int)
    requires maxLength < |NoPasswordNeeded|
    ensures var r := Route(".zip", maxLength, charset, tools, archive);
            Justified(".zip", tools, archive, charset, maxLength, Respond(r.result)) && Respond(r.result).status != 400
  {
    var r := Route(".zip", maxLength, charset, tools, archive);
    match archive.zipEntries
    case Raised(_) =>
      assert r.result.Raised?;
    case Ok(entries) =>
      if !AnyEncrypted(entries) {
        assert r.result == Ok(Some(NoPasswordNeeded));
      } else {
        ZipSearchResponse(tools, archive, charset, maxLength, r);
      }
  }

  lemma ZipSearchResponse(tools: Tools, archive: Archive, charset: Charset, maxLength: int, r: Report)
    requires maxLength < |NoPasswordNeeded|
    requires ZipSearched(archive)
    requires SearchReport(charset, maxLength, EntryVerifier(archive.read, SearchedEntry(archive)), ZipErrorPrefix, r)
    ensures Justified(".zip", tools, archive, charset, maxLength, Respond(r.result))
  {
    var v := EntryVerifier(archive.read, SearchedEntry(archive));
    var resp := Respond(r.result);
    if resp.body.Password? {
      assert v(resp.body.password) == Match;
    }
    if resp.status == 404 {
      assert r.result == Ok(None);
      var all := Candidates(charset, maxLength);
      forall k | 0 <= k < |all|
        ensures WrongZipPassword(archive.read(SearchedEntry(archive), all[k]))
      {
        assert v(all[k]) == Miss;
      }
    }
  }

  /** The same for RAR archives. */
  lemma RarResponse(tools: Tools, archive: Archive, charset: Charset, maxLength: int)
    requires maxLength < |NoPasswordNeeded|
    ensures var r := Route(".rar", maxLength, charset, tools, archive);
            Justified(".rar", tools, archive, charset, maxLength, Respond(r.result)) && Respond(r.result).status != 400
  {
    var r := Route(".rar", maxLength, charset, tools, archive);
    if !tools.sevenZip {
      assert r.result.Raised?;
    } else {
      assert r == BruteForceRar(true, archive.probe, archive.test, maxLength, charset);
      if archive.probe == Exited(0) {
        assert r.result == Ok(Some(NoPasswordNeeded));
      } else if archive.probe.Failed? {
        assert r.result.Raised?;
      } else {
        RarSearchResponse(tools, archive, charset, maxLength, r);
      }
    }
  }

  lemma RarSearchResponse(tools: Tools, archive: Archive, charset: Charset, maxLength: int, r: Report)
    requires maxLength < |NoPasswordNeeded|
    requires tools.sevenZip
    requires archive.probe != Exited(0)
    requires SearchReport(charset, maxLength, ToolVerifier(archive.test), "", r) && r.result.Ok?
    ensures Justified(".rar", tools, archive, charset, maxLength, Respond(r.result))
  {
    var resp := Respond(r.result);
    if resp.body.Password? {
      assert ToolVerifier(archive.test)(resp.body.password) == Match;
    }
    if resp.status == 404 {
      assert r.result == Ok(None);
    }
  }

  // ---------------------------------------------------------------------
  // Completeness: the archive's behaviour decides the response

  /** Rejected ZIP candidates are exactly the misses of the entry verifier. */
  lemma ZipRejectsAreMisses(tools: Tools, archive: Archive, all: seq<string>, n: nat)
    requires ZipSearched(archive) && n <= |all|
    ensures RejectsBefore(".zip", tools, archive, all, n) <==>
            MissesBefore(all, EntryVerifier(archive.read, SearchedEntry(archive)), n)
  {
    var v := EntryVerifier(archive.read, SearchedEntry(archive));
    forall k | 0 <= k < n
      ensures WrongZipPassword(archive.read(SearchedEntry(archive), all[k])) <==> v(all[k]) == Miss
    {
    }
  }

  /** Rejected RAR candidates are exactly the misses of the 7z verifier. */
  lemma RarRejectsAreMisses(tools: Tools, archive: Archive, all: seq<string>, n: nat)
    requires n <= |all|
    ensures RejectsBefore(".rar", tools, archive, all, n) <==> MissesBefore(all, ToolVerifier(archive.test), n)
  {
    var v := ToolVerifier(archive.test);
    forall k | 0 <= k < n ensures archive.test(all[k]) != Exited(0) <==> v(all[k]) == Miss {
    }
  }

  /** A found candidate is answered with 200 and the password itself. */
  lemma PasswordAnswer(charset: Charset, maxLength: int, all: seq<string>, n: nat)
    requires maxLength < |NoPasswordNeeded|
    requires all == Candidates(charset, maxLength) && n < |all|
    ensures Respond(Ok(Some(all[n]))) == Response(Password(all[n]), 200)
  {
    assert all[n] in all;
    CandidateMember(charset, maxLength, all[n]);
  }

  /** Every ZIP response is the one the archive calls for. */
  lemma ZipComplete(tools: Tools, archive: Archive, charset: Charset, maxLength: int)
    requires maxLength < |NoPasswordNeeded|
    ensures Complete(".zip", tools, archive, charset, maxLength, Respond(Route(".zip", maxLength, charset, tools, archive).result))
  {
    var r := Route(".zip", maxLength, charset, tools, archive);
    if ZipSearched(archive) {
      var v := EntryVerifier(archive.read, SearchedEntry(archive));
      ZipOpenerAnswer(tools, archive, charset, maxLength, r);
      ZipRejectedAnswer(tools, archive, charset, maxLength, r);
      ZipRaisedAnswer(tools, archive, charset, maxLength, r);
    } else {
      ZipNotSearched(tools, archive, charset, maxLength);
    }
  }

  lemma ZipNotSearched(tools: Tools, archive: Archive, charset: Charset, maxLength: int)
    requires !ZipSearched(archive)
    ensures Complete(".zip", tools, archive, charset, maxLength, Respond(Route(".zip", maxLength, charset, tools, archive).result))
  {
    var r := Route(".zip", maxLength, charset, tools, archive);
    var all := Candidates(charset, maxLength);
    assert !RejectsBefore(".zip", tools, archive, all, |all|);
    forall n: nat ensures !FirstFault(".zip", tools, archive, charset, maxLength, n) && !FirstOpener(".zip", tools, archive, charset, maxLength, n) {
      if n < |all| {
        assert !RejectsBefore(".zip", tools, archive, all, n);
      }
    }
    if archive.zipEntries.Raised? {
      assert r.result == Raised(ZipErrorPrefix + archive.zipEntries.message);
    } else {
      assert r.result == Ok(Some(NoPasswordNeeded));
    }
  }

  lemma ZipOpenerAnswer(tools: Tools, archive: Archive, charset: Charset, maxLength: int, r: Report)
    requires maxLength < |NoPasswordNeeded|
    requires ZipSearched(archive)
    requires SearchReport(charset, maxLength, EntryVerifier(archive.read, SearchedEntry(archive)), ZipErrorPrefix, r)
    ensures AnswersOpener(".zip", tools, archive, charset, maxLength, Respond(r.result))
  {
    var all := Candidates(charset, maxLength);
    var v := EntryVerifier(archive.read, SearchedEntry(archive));
    forall n: nat | FirstOpener(".zip", tools, archive, charset, maxLength, n)
      ensures Respond(r.result) == Response(Password(all[n]), 200)
    {
      ZipRejectsAreMisses(tools, archive, all, n);
      ReportAt(charset, maxLength, v, ZipErrorPrefix, r, n);
      PasswordAnswer(charset, maxLength, all, n);
    }
  }

  lemma ZipRejectedAnswer(tools: Tools, archive: Archive, charset: Charset, maxLength: int, r: Report)
    requires ZipSearched(archive)
    requires SearchReport(charset, maxLength, EntryVerifier(archive.read, SearchedEntry(archive)), ZipErrorPrefix, r)
    ensures AnswersUnprotected(".zip", tools, archive, Respond(r.result))
    ensures AnswersRejected(".zip", tools, archive, charset, maxLength, Respond(r.result))
  {
    var all := Candidates(charset, maxLength);
    if RejectsAll(".zip", tools, archive, charset, maxLength) {
      ZipRejectsAreMisses(tools, archive, all, |all|);
      ReportNone(charset, maxLength, EntryVerifier(archive.read, SearchedEntry(archive)), ZipErrorPrefix, r);
    }
  }

  lemma ZipRaisedAnswer(tools: Tools, archive: Archive, charset: Charset, maxLength: int, r: Report)
    requires ZipSearched(archive)
    requires SearchReport(charset, maxLength, EntryVerifier(archive.read, SearchedEntry(archive)), ZipErrorPrefix, r)
    ensures AnswersRaised(".zip", tools, archive, charset, maxLength, Respond(r.result))
  {
    ZipFaultMessage(tools, archive, charset, maxLength, r);
    ZipRaises(tools, archive, charset, maxLength, r);
  }

  /** The searched ZIP archive raises exactly when some read fails badly. */
  lemma ZipRaises(tools: Tools, archive: Archive, charset: Charset, maxLength: int, r: Report)
    requires ZipSearched(archive)
    requires SearchReport(charset, maxLength, EntryVerifier(archive.read, SearchedEntry(archive)), ZipErrorPrefix, r)
    ensures r.result.Raised? <==> Raises(".zip", tools, archive, charset, maxLength)
  {
    ZipFaultMessage(tools, archive, charset, maxLength, r);
    if r.result.Raised? {
      ZipLastFault(tools, archive, charset, maxLength, r);
    }
  }

  /** A raised ZIP search stopped at a first bad read. */
  lemma ZipLastFault(tools: Tools, archive: Archive, charset: Charset, maxLength: int, r: Report)
    requires ZipSearched(archive)
    requires SearchReport(charset, maxLength, EntryVerifier(archive.read, SearchedEntry(archive)), ZipErrorPrefix, r)
    requires r.result.Raised?
    ensures 1 <= r.attempts && FirstFault(".zip", tools, archive, charset, maxLength, r.attempts - 1)
  {
    var all := Candidates(charset, maxLength);
    var n := r.attempts - 1;
    ZipRejectsAreMisses(tools, archive, all, n);
    assert EntryVerifier(archive.read, SearchedEntry(archive))(all[n]).Fault?;
  }

  /** A first bad read ends the ZIP search with that read's error. */
  lemma ZipFaultMessage(tools: Tools, archive: Archive, charset: Charset, maxLength: int, r: Report)
    requires ZipSearched(archive)
    requires SearchReport(charset, maxLength, EntryVerifier(archive.read, SearchedEntry(archive)), ZipErrorPrefix, r)
    ensures forall n: nat :: FirstFault(".zip", tools, archive, charset, maxLength, n) ==>
              r.result == Raised(ZipErrorPrefix + archive.read(SearchedEntry(archive), Candidates(charset, maxLength)[n]).message)
  {
    var all := Candidates(charset, maxLength);
    var v := EntryVerifier(archive.read, SearchedEntry(archive));
    forall n: nat | FirstFault(".zip", tools, archive, charset, maxLength, n)
      ensures r.result == Raised(ZipErrorPrefix + archive.read(SearchedEntry(archive), all[n]).message)
    {
      ZipRejectsAreMisses(tools, archive, all, n);
      ReportAt(charset, maxLength, v, ZipErrorPrefix, r, n);
    }
  }

  /** Every RAR response is the one the archive and tools call for. */
  lemma RarComplete(tools: Tools, archive: Archive, charset: Charset, maxLength: int)
    requires maxLength < |NoPasswordNeeded|
    ensures Complete(".rar", tools, archive, charset, maxLength, Respond(Route(".rar", maxLength, charset, tools, archive).result))
  {
    var r := Route(".rar", maxLength, charset, tools, archive);
    if tools.sevenZip && archive.probe != Exited(0) && !archive.probe.Failed? {
      assert r == BruteForceRar(true, archive.probe, archive.test, maxLength, charset);
      RarSearchComplete(tools, archive, charset, maxLength, r);
    } else {
      RarNotSearched(tools, archive, charset, maxLength);
    }
  }

  lemma RarNotSearched(tools: Tools, archive: Archive, charset: Charset, maxLength: int)
    requires !(tools.sevenZip && archive.probe != Exited(0) && !archive.probe.Failed?)
    ensures Complete(".rar", tools, archive, charset, maxLength, Respond(Route(".rar", maxLength, charset, tools, archive).result))
  {
    var r := Route(".rar", maxLength, charset, tools, archive);
    if !tools.sevenZip {
      assert r.result.Raised?;
    } else if archive.probe == Exited(0) {
      assert r.result == Ok(Some(NoPasswordNeeded));
    } else {
      assert r.result == Raised(archive.probe.message);
    }
  }

  lemma RarSearchComplete(tools: Tools, archive: Archive, charset: Charset, maxLength: int, r: Report)
    requires maxLength < |NoPasswordNeeded|
    requires tools.sevenZip && archive.probe != Exited(0) && !archive.probe.Failed?
    requires SearchReport(charset, maxLength, ToolVerifier(archive.test), "", r) && r.result.Ok?
    ensures Complete(".rar", tools, archive, charset, maxLength, Respond(r.result))
  {
    var all := Candidates(charset, maxLength);
    var v := ToolVerifier(archive.test);
    forall n: nat | FirstOpener(".rar", tools, archive, charset, maxLength, n)
      ensures Respond(r.result) == Response(Password(all[n]), 200)
    {
      RarRejectsAreMisses(tools, archive, all, n);
      ReportAt(charset, maxLength, v, "", r, n);
      PasswordAnswer(charset, maxLength, all, n);
    }
    if RejectsAll(".rar", tools, archive, charset, maxLength) {
      RarRejectsAreMisses(tools, archive, all, |all|);
      ReportNone(charset, maxLength, v, "", r);
    }
  }

  /** As written, the handler answers the demonstration archive (a plain
      directory entry, then a file encrypted with "7") with the password
      "0", which does not open the encrypted file. */
  lemma HandlerAsWrittenDemo(tools: Tools, probe: Process, test: string -> Process)
    ensures Respond(BruteForceZipAsWritten(Ok(DemoEntries), DefaultMaxLength, DefaultCharset, DemoRead).result)
         == Response(Password("0"), 200)
    ensures !Opens(".zip", tools, Archive(Ok(DemoEntries), DemoRead, probe, test), "0")
  {
    DemoAsWritten();
    DemoZeroFails(tools, probe, test);
  }

  /** "0" does not open the demonstration archive's encrypted file. */
  lemma DemoZeroFails(tools: Tools, probe: Process, test: string -> Process)
    ensures !Opens(".zip", tools, Archive(Ok(DemoEntries), DemoRead, probe, test), "0")
  {
    assert IsEncrypted(DemoEntries[1]) && !IsEncrypted(DemoEntries[0]);
    assert FirstEncrypted(DemoEntries) == 1;
  }

  /** The temporary file's path has the upload's extension. */
  lemma TempPathExtension(ext: string)
    requires ext in AllowedExtensions
    ensures Lower(Extension(TempStem + ext)) == ext
  {
    ExtensionOfStem(TempStem, ext);
    LowerIdempotent(ext);
    assert Lower(ext) == ext by {
      if ext == ".zip" {
        assert Lower(".zip") == Lower(Lower(".zip"));
      }
    }
  }

  /** With the defaults the sentinel is not a candidate, so a found password
      is never mistaken for an unprotected archive; and a fruitless search
      makes 10 + 100 + 1000 + 10000 attempts. */
  lemma DefaultKeyspace()
    ensures NoPasswordNeeded !in Candidates(DefaultCharset, DefaultMaxLength)
    ensures |Candidates(DefaultCharset, DefaultMaxLength)| == 11110
  {
    TenSymbolKeyspace(DefaultCharset, DefaultMaxLength);
  }

  lemma TenSymbolKeyspace(charset: Charset, maxLength: int)
    requires |charset| == 10 && maxLength == 4
    ensures NoPasswordNeeded !in Candidates(charset, maxLength)
    ensures |Candidates(charset, maxLength)| == 11110
  {
    CandidateMember(charset, maxLength, NoPasswordNeeded);
    CandidatesLength(charset, maxLength);
    CountOfTen(charset);
  }
}

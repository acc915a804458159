/** The two brute-force functions: one for ZIP archives, read in-process,
    and one for RAR archives, handed to the external 7z tool. Both run the
    shared search; they differ in the "no password needed" probe and in
    which failures of a single attempt count as a wrong password. */
module Verifiers {
  import opened Outcomes
  import opened Keyspace
  import opened Search

  /** The value both functions return when the archive is not protected. It
      is an ordinary string, as in `backend/app.py`. */
  const NoPasswordNeeded: string := "NO_PASSWORD_NEEDED"

  /** Every exception leaving the ZIP search is re-raised with this prefix. */
  const ZipErrorPrefix: string := "Error processing ZIP file: "

  /** What a brute-force function gives back: its Python result (`str`,
      `None`, or a raised exception) and how many candidates it tried. */
  datatype Report = Report(result: Result<Option<string>>, attempts: nat)

  /** The search over the keyspace, as seen through its result: a returned
      password was accepted and lies in the keyspace, `None` means every
      candidate was rejected, and a raised exception carries the fault of the
      last candidate tried behind `errorPrefix`. */
  ghost predicate SearchReport(charset: Charset, maxLength: int, verify: Verifier, errorPrefix: string, r: Report)
  {
    var all := Candidates(charset, maxLength);
    && r.attempts <= |all| == Count(charset, maxLength)
    && (forall k :: 0 <= k < r.attempts - 1 ==> verify(all[k]) == Miss)
    && (r.result.Ok? && r.result.value.Some? ==>
          var p := r.result.value.value;
          && verify(p) == Match
          && 1 <= |p| <= maxLength && Over(p, charset)
          && 1 <= r.attempts && all[r.attempts - 1] == p)
    && (r.result == Ok(None) ==>
          r.attempts == Count(charset, maxLength)
          && forall k :: 0 <= k < |all| ==> verify(all[k]) == Miss)
    && (r.result.Raised? ==>
          && 1 <= r.attempts
          && verify(all[r.attempts - 1]).Fault?
          && r.result.message == errorPrefix + verify(all[r.attempts - 1]).reason)
    && ((forall k :: 0 <= k < |all| ==> !verify(all[k]).Fault?) ==> r.result.Ok?)
  }

  /** Runs the search and reports it; an abort is raised with `errorPrefix`
      in front of the fault's message. */
  function SearchKeyspace(charset: Charset, maxLength: int, verify: Verifier, errorPrefix: string): (r: Report)
    ensures SearchReport(charset, maxLength, verify, errorPrefix, r)
  {
    var all := Candidates(charset, maxLength);
    var run := Scan(all, verify);
    CandidatesLength(charset, maxLength);
    match run.outcome
    case Found(p) =>
      CandidateMember(charset, maxLength, p);
      assert all[run.attempts - 1] in all;
      Report(Ok(Some(p)), run.attempts)
    case Exhausted => Report(Ok(None), run.attempts)
    case Aborted(m) => Report(Raised(errorPrefix + m), run.attempts)
  }

  /** A report is decided by the first candidate that is not a wrong
      password: a match there is the returned password, a fault there is the
      raised error, and either way it was the last candidate tried. */
  lemma ReportAt(charset: Charset, maxLength: int, verify: Verifier, errorPrefix: string, r: Report, n: nat)
    requires SearchReport(charset, maxLength, verify, errorPrefix, r)
    requires n < |Candidates(charset, maxLength)|
    requires MissesBefore(Candidates(charset, maxLength), verify, n)
    requires verify(Candidates(charset, maxLength)[n]) != Miss
    ensures r.attempts == n + 1
    ensures verify(Candidates(charset, maxLength)[n]) == Match ==>
              r.result == Ok(Some(Candidates(charset, maxLength)[n]))
    ensures verify(Candidates(charset, maxLength)[n]).Fault? ==>
              r.result == Raised(errorPrefix + verify(Candidates(charset, maxLength)[n]).reason)
  {
    var all := Candidates(charset, maxLength);
    match r.result
    case Raised(_) =>
      assert !(r.attempts - 1 < n) && !(n < r.attempts - 1);
    case Ok(None) =>
    case Ok(Some(p)) =>
      assert !(r.attempts - 1 < n) && !(n < r.attempts - 1);
  }

  /** A report after misses only is `None`. */
  lemma ReportNone(charset: Charset, maxLength: int, verify: Verifier, errorPrefix: string, r: Report)
    requires SearchReport(charset, maxLength, verify, errorPrefix, r)
    requires MissesBefore(Candidates(charset, maxLength), verify, |Candidates(charset, maxLength)|)
    ensures r.result == Ok(None)
  {
  }

  /** With no positive length there is nothing to try: `None` after zero
      attempts, whatever the verifier. */
  lemma EmptyKeyspace(charset: Charset, maxLength: int, verify: Verifier, errorPrefix: string)
    requires maxLength <= 0
    ensures SearchKeyspace(charset, maxLength, verify, errorPrefix) == Report(Ok(None), 0)
  {
    assert Candidates(charset, maxLength) == [];
  }

  // ---------------------------------------------------------------------
  // ZIP, read in-process

  /** One member of the archive's central directory. */
  datatype ZipEntry = ZipEntry(filename: string, flagBits: bv16)

  /** Bit 0 of the general purpose flag marks an encrypted entry. */
  predicate IsEncrypted(e: ZipEntry)
  {
    e.flagBits & 0x1 != 0
  }

  predicate AnyEncrypted(entries: seq<ZipEntry>)
  {
    exists i :: 0 <= i < |entries| && IsEncrypted(entries[i])
  }

  /** The position of the first encrypted entry. */
  function FirstEncrypted(entries: seq<ZipEntry>): (i: nat)
    requires AnyEncrypted(entries)
    ensures i < |entries| && IsEncrypted(entries[i])
    ensures forall k :: 0 <= k < i ==> !IsEncrypted(entries[k])
  {
    if IsEncrypted(entries[0]) then 0
    else
      assert AnyEncrypted(entries[1..]) by {
        var i :| 0 <= i < |entries| && IsEncrypted(entries[i]);
        assert entries[1..][i - 1] == entries[i];
      }
      1 + FirstEncrypted(entries[1..])
  }

  /** How `ZipFile.read(entry, pwd=candidate)` ends. `RuntimeError` and
      `BadZipFile` stand for those exception classes and their subclasses,
      as the `except` clause of `brute_force_zip` catches them: among them is
      `NotImplementedError`, which `zipfile` raises for an AES-encrypted entry,
      so such an archive misses on every candidate. */
  datatype ZipRead =
    | Extracted
    | RuntimeError(message: string)
    | BadZipFile(message: string)
    | OtherError(message: string)

  /** The archive library's read of one entry with one password. The Python
      code reads by file name; an archive that repeats a name, whose later
      entry wins that lookup, is not distinguished from one that does not. */
  type EntryReader = (ZipEntry, string) -> ZipRead

  /** The library ignores the password of an entry that is not encrypted. */
  ghost predicate IgnoresPasswordWhenPlain(read: EntryReader)
  {
    forall e: ZipEntry, p: string, q: string {:trigger read(e, p), read(e, q)} ::
      !IsEncrypted(e) ==> read(e, p) == read(e, q)
  }

  /** `RuntimeError` and `BadZipFile` mean a wrong password; any other
      exception aborts the search. */
  function ZipAttempt(r: ZipRead): (a: Attempt)
    ensures a == Match <==> r == Extracted
    ensures a == Miss <==> r.RuntimeError? || r.BadZipFile?
    ensures a.Fault? <==> r.OtherError?
    ensures r.OtherError? ==> a == Fault(r.message)
  {
    match r
    case Extracted => Match
    case RuntimeError(_) => Miss
    case BadZipFile(_) => Miss
    case OtherError(m) => Fault(m)
  }

  /** Candidates tried on one entry of the archive. */
  function EntryVerifier(read: EntryReader, e: ZipEntry): Verifier
  {
    (p: string) => ZipAttempt(read(e, p))
  }

  /** The ZIP search as `brute_force_zip` is written: encryption is decided over all
      entries, but candidates are tried on the first entry. */
  function BruteForceZipAsWritten(archive: Result<seq<ZipEntry>>, maxLength: int, charset: Charset, read: EntryReader): (r: Report)
    ensures archive.Raised? ==> r == Report(Raised(ZipErrorPrefix + archive.message), 0)
    ensures archive.Ok? && !AnyEncrypted(archive.value) ==> r == Report(Ok(Some(NoPasswordNeeded)), 0)
    ensures archive.Ok? && AnyEncrypted(archive.value) ==>
              SearchReport(charset, maxLength, EntryVerifier(read, archive.value[0]), ZipErrorPrefix, r)
  {
    match archive
    case Raised(m) => Report(Raised(ZipErrorPrefix + m), 0)
    case Ok(entries) =>
      if !AnyEncrypted(entries) then Report(Ok(Some(NoPasswordNeeded)), 0)
      else
        SearchKeyspace(charset, maxLength, EntryVerifier(read, entries[0]), ZipErrorPrefix)
  }

  /** The ZIP search as intended: candidates are tried on the first
      encrypted entry, so a returned password opens an encrypted entry. */
  function BruteForceZip(archive: Result<seq<ZipEntry>>, maxLength: int, charset: Charset, read: EntryReader): (r: Report)
    ensures archive.Raised? ==> r == Report(Raised(ZipErrorPrefix + archive.message), 0)
    ensures archive.Ok? && !AnyEncrypted(archive.value) ==> r == Report(Ok(Some(NoPasswordNeeded)), 0)
    ensures archive.Ok? && AnyEncrypted(archive.value) ==>
              var e := archive.value[FirstEncrypted(archive.value)];
              && IsEncrypted(e)
              && SearchReport(charset, maxLength, EntryVerifier(read, e), ZipErrorPrefix, r)
  {
    match archive
    case Raised(m) => Report(Raised(ZipErrorPrefix + m), 0)
    case Ok(entries) =>
      if !AnyEncrypted(entries) then Report(Ok(Some(NoPasswordNeeded)), 0)
      else
        SearchKeyspace(charset, maxLength, EntryVerifier(read, entries[FirstEncrypted(entries)]), ZipErrorPrefix)
  }

  /** The correction changes nothing unless the first listed entry is plain
      while another is encrypted: on every other archive both searches give
      the same report. */
  lemma CorrectionAgrees(archive: Result<seq<ZipEntry>>, maxLength: int, charset: Charset, read: EntryReader)
    requires archive.Ok? && AnyEncrypted(archive.value) ==> IsEncrypted(archive.value[0])
    ensures BruteForceZip(archive, maxLength, charset, read) == BruteForceZipAsWritten(archive, maxLength, charset, read)
  {
    if archive.Ok? && AnyEncrypted(archive.value) {
      assert FirstEncrypted(archive.value) == 0;
    }
  }

  /** The flaw of `brute_force_zip` in general: when the first entry is not encrypted
      but another is, the first candidate is "found" whatever the password. */
  lemma FirstPlainEntryBug(entries: seq<ZipEntry>, maxLength: int, charset: Charset, read: EntryReader)
    requires AnyEncrypted(entries) && !IsEncrypted(entries[0])
    requires forall p :: read(entries[0], p) == Extracted
    requires 1 <= maxLength && |charset| >= 1
    ensures BruteForceZipAsWritten(Ok(entries), maxLength, charset, read) == Report(Ok(Some([charset[0]])), 1)
  {
    var all := Candidates(charset, maxLength);
    CandidatesAt(charset, maxLength, 1, 0);
    ProductLength(charset, 1);
    assert Product(charset, 0) == [""];
    PrefixAt(charset, [""], 0, 0);
    assert all[0] == [charset[0]];
    var run := Run(Found([charset[0]]), 1);
    AgreesWithScan(all, EntryVerifier(read, entries[0]), run);
  }

  /** `brute_force_zip` as written on any archive whose first entry is plain
      while another is encrypted: the library ignores the password of the
      plain entry, so every candidate gets the same verdict and the
      encrypted entries play no part. The first candidate is returned if the
      plain entry reads, `None` after every candidate if it fails like a
      wrong password, and any other failure is raised after one attempt. */
  lemma PlainFirstEntryAsWritten(entries: seq<ZipEntry>, maxLength: int, charset: Charset, read: EntryReader)
    requires AnyEncrypted(entries) && !IsEncrypted(entries[0])
    requires IgnoresPasswordWhenPlain(read)
    ensures var r := BruteForceZipAsWritten(Ok(entries), maxLength, charset, read);
            var all := Candidates(charset, maxLength);
            && (|all| == 0 ==> r == Report(Ok(None), 0))
            && (|all| > 0 && read(entries[0], all[0]) == Extracted ==> r == Report(Ok(Some(all[0])), 1))
            && (|all| > 0 && (read(entries[0], all[0]).RuntimeError? || read(entries[0], all[0]).BadZipFile?) ==>
                  r == Report(Ok(None), |all|))
            && (|all| > 0 && read(entries[0], all[0]).OtherError? ==>
                  r == Report(Raised(ZipErrorPrefix + read(entries[0], all[0]).message), 1))
  {
    var r := BruteForceZipAsWritten(Ok(entries), maxLength, charset, read);
    var all := Candidates(charset, maxLength);
    var v := EntryVerifier(read, entries[0]);
    if |all| > 0 {
      var first := read(entries[0], all[0]);
      forall k | 0 <= k < |all| ensures v(all[k]) == ZipAttempt(first) {
        assert read(entries[0], all[k]) == first;
      }
      if first.RuntimeError? || first.BadZipFile? {
        ReportNone(charset, maxLength, v, ZipErrorPrefix, r);
      } else {
        ReportAt(charset, maxLength, v, ZipErrorPrefix, r, 0);
      }
    } else {
      ReportNone(charset, maxLength, v, ZipErrorPrefix, r);
    }
  }

  /** A concrete archive showing it: a plain directory entry followed by a
      file encrypted with password "7". */
  const DemoEntries: seq<ZipEntry> := [ZipEntry("docs/", 0), ZipEntry("docs/secret.txt", 1)]

  /** A reader for it that behaves as the library does: the directory opens
      with any password, the file only with "7". */
  const DemoRead: EntryReader :=
    (e: ZipEntry, p: string) => if IsEncrypted(e) && p != "7" then RuntimeError("Bad password") else Extracted

  /** As written, the search reports "0", which does not open the file. */
  lemma DirectoryEntryAsWritten()
    ensures IgnoresPasswordWhenPlain(DemoRead)
    ensures BruteForceZipAsWritten(Ok(DemoEntries), 4, "0123456789", DemoRead) == Report(Ok(Some("0")), 1)
    ensures DemoRead(DemoEntries[1], "0") != Extracted
  {
    DemoReadIgnoresPassword();
    DemoAsWritten();
  }

  lemma DemoReadIgnoresPassword()
    ensures IgnoresPasswordWhenPlain(DemoRead)
  {
  }

  lemma DemoAsWritten()
    ensures BruteForceZipAsWritten(Ok(DemoEntries), 4, "0123456789", DemoRead) == Report(Ok(Some("0")), 1)
  {
    var cs: Charset := "0123456789";
    assert [cs[0]] == "0";
    assert IsEncrypted(DemoEntries[1]) && !IsEncrypted(DemoEntries[0]);
    FirstPlainEntryBug(DemoEntries, 4, cs, DemoRead);
  }

  /** Corrected, the search reports "7" on attempt 8 (after "0" .. "6"). */
  lemma DirectoryEntryCorrected()
    ensures BruteForceZip(Ok(DemoEntries), 4, "0123456789", DemoRead) == Report(Ok(Some("7")), 8)
  {
    assert IsEncrypted(DemoEntries[1]) && !IsEncrypted(DemoEntries[0]);
    assert FirstEncrypted(DemoEntries) == 1;
    DemoSecretScan();
  }

  lemma DemoSecretScan()
    ensures Scan(Candidates("0123456789", 4), EntryVerifier(DemoRead, DemoEntries[1])) == Run(Found("7"), 8)
  {
    SevenExample();
    DemoSecretIsExact();
    ScanPointwise(Candidates("0123456789", 4), Exact("7"), EntryVerifier(DemoRead, DemoEntries[1]));
  }

  lemma DemoSecretIsExact()
    ensures forall p :: Exact("7")(p) == EntryVerifier(DemoRead, DemoEntries[1])(p)
  {
    var secret := DemoEntries[1];
    assert IsEncrypted(secret);
    forall p: string ensures Exact("7")(p) == EntryVerifier(DemoRead, secret)(p) {
      if p == "7" {
        assert DemoRead(secret, p) == Extracted;
      } else {
        assert DemoRead(secret, p) == RuntimeError("Bad password");
      }
    }
  }

  lemma SevenExample()
    ensures Scan(Candidates("0123456789", 4), Exact("7")) == Run(Found("7"), 8)
  {
    SevenIndex();
    FindsSingleCharacter("0123456789", 4, '7');
  }

  lemma SevenIndex()
    ensures '7' in "0123456789" && IndexOf("0123456789", '7') == 7
  {
    assert "0123456789"[7] == '7';
  }

  // ---------------------------------------------------------------------
  // RAR, through the 7z command-line tool

  /** How one `7z t` run ends: its exit code, the 10-second timeout, or an
      exception from starting the process. */
  datatype Process = Exited(code: int) | TimedOut | Failed(message: string)

  /** Exit code 0 is a match; a non-zero exit, a timeout or an exception is
      a miss, so the 7z search never aborts on a candidate. */
  function RarAttempt(p: Process): (a: Attempt)
    ensures a == Match <==> p == Exited(0)
    ensures !a.Fault?
  {
    match p
    case Exited(code) => if code == 0 then Match else Miss
    case TimedOut => Miss
    case Failed(_) => Miss
  }

  /** Candidates passed to `7z t <archive> -p<candidate>`. */
  function ToolVerifier(test: string -> Process): Verifier
  {
    (p: string) => RarAttempt(test(p))
  }

  /** The 7z search. `sevenZip` says whether the tool was found; `probe` is
      the result of `7z t <archive>` without a password. */
  function BruteForceRar(sevenZip: bool, probe: Process, test: string -> Process, maxLength: int, charset: Charset): (r: Report)
    ensures !sevenZip ==> r == Report(Raised("7z tool not found"), 0)
    ensures sevenZip && probe == Exited(0) ==> r == Report(Ok(Some(NoPasswordNeeded)), 0)
    ensures sevenZip && probe.Failed? ==> r == Report(Raised(probe.message), 0)
    ensures sevenZip && probe != Exited(0) && !probe.Failed? ==>
              && r.result.Ok?
              && SearchReport(charset, maxLength, ToolVerifier(test), "", r)
  {
    if !sevenZip then Report(Raised("7z tool not found"), 0)
    else
      match probe
      case Exited(code) =>
        if code == 0 then Report(Ok(Some(NoPasswordNeeded)), 0)
        else SearchKeyspace(charset, maxLength, ToolVerifier(test), "")
      case TimedOut => SearchKeyspace(charset, maxLength, ToolVerifier(test), "")
      case Failed(m) => Report(Raised(m), 0)
  }
}

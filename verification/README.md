# Archive password cracker: a Dafny model of the search core

The backend of this small web service accepts an uploaded ZIP or RAR archive
and tries every password made of decimal digits, up to four characters long,
until one opens the archive. This project models that core and proves what
it promises:

- **Keyspace** (`keyspace.dfy`). This is the candidate order both searches
  use: lengths 1 to `max_length`, and for each length the tuples of
  `itertools.product(charset, repeat=length)`, with the first position
  varying slowest. The module proves the size of the keyspace
  (b + b^2 + ... + b^max_length for a charset of size b), which strings it contains, and the exact
  position at which each one is first tried.
- **Search** (`search.dfy`). This is the loop the two brute-force functions
  share. A reference definition (`Scan`) stops at the first candidate that is
  not a wrong password. The method `SearchLoop` has the nested loops of
  `brute_force_zip` and is proved equal to `Scan`. Lemmas prove that:
  - the first match wins;
  - nothing after it is consulted;
  - a password in the keyspace is found after a known number of attempts;
  - a password outside it exhausts the keyspace.
- **Verifiers** (`verifiers.dfy`). These are `brute_force_zip` and
  `brute_force_rar_with_7z`. Each has its own probe for "no password
  needed", and each decides differently which failures of a single attempt
  count as a wrong password:
  - for ZIP, `RuntimeError` and `BadZipFile` are misses, and any other
    exception aborts with the `Error processing ZIP file:` prefix;
  - for 7z, a non-zero exit, a timeout or any exception is a miss, so that
    search never aborts.
- **Dispatch** (`dispatch.dfy`). This is `brute_force_archive`: it routes on
  the lower-cased `os.path.splitext` extension. With no 7z tool, a RAR
  archive is an error whose message depends on the other tools found.
- **Crack** (`crack.dfy`). This is the `/crack` handler without its HTTP and
  file plumbing:
  - the upload checks give 400;
  - the search's result is mapped to 200 with a message or a password, 404,
    or 500 carrying the exception's text;
  - with the corrected ZIP search (see Findings), each response is proved
    to be justified by the archive's behaviour, and conversely the
    archive's behaviour is proved to decide the response: the first
    candidate that opens it gives 200 with that password, a keyspace of
    wrong passwords gives 404, and 500 comes exactly when the search raises;
  - as written, the handler can answer 200 with a password that does not
    open the archive (`Crack.HandlerAsWrittenDemo`).

Python's `str | None` result is `Option<string>`, and a raised exception is
`Result.Raised(message)` (`outcomes.dfy`). The archive libraries and the 7z
tool are not modelled. They enter as parameters instead:
- a reader that says how `ZipFile.read(entry, pwd)` ends;
- the 7z probe's end;
- a function giving how `7z t -p<candidate>` ends.

Every result is stated for all such behaviours. Each brute-force function
also reports how many candidates it tried: this is `total_attempts`, which
the Python code only logs.

## Model

| member | source | states |
|---|---|---|
| Keyspace.Product | backend/app.py:68 | the tuples of one length in `itertools.product` order; its size, contents and order are stated by `ProductLength`, `ProductMember` and `ProductRank` |
| Keyspace.Candidates | backend/app.py:65-69 | the whole keyspace in search order, lengths 1 to max_length; its size, contents and order are stated by `CandidatesLength`, `CandidateMember`, `CandidatesAt` and `CandidateFirstIndex` |
| Keyspace.Count | backend/app.py:65-70 | the number of attempts of a fruitless search; it is the keyspace's size by `CandidatesLength` and has the closed form of `CountClosedForm` |
| Keyspace.IndexOf | backend/app.py:68-69 | the digit a character contributes to a candidate's rank is its first position in the charset |
| Keyspace.PrefixAt | backend/app.py:68 | in `itertools.product`, the leading position varies slowest: with t tails, entry i*t+j is character i followed by tail j |
| Keyspace.ProductLength | backend/app.py:68 | there are b^n tuples of length n over a charset of size b |
| Keyspace.ProductMember | backend/app.py:68-69 | a string is a tuple of length n exactly when it has n characters, all from the charset |
| Keyspace.ProductRank | backend/app.py:68-69 | every string over the charset is first produced at its rank (its first-occurrence charset indices read as a numeral in base b, the charset's size), and at no earlier position |
| Keyspace.CandidatesLength | backend/app.py:65-70 | the keyspace has b + b^2 + ... + b^max_length candidates for a charset of size b, so that is the number of attempts of a fruitless search |
| Keyspace.CandidateMember | backend/app.py:65-69 | a string is a candidate exactly when its length is between 1 and max_length and its characters come from the charset; nothing is a candidate when max_length <= 0 |
| Keyspace.CandidatesAt | backend/app.py:65-70 | the j-th tuple of length n is attempt number Count(n-1)+j+1: every shorter length is finished first |
| Keyspace.CandidatesByLength | backend/app.py:65 | candidate lengths never decrease along the search |
| Keyspace.CandidateFirstIndex | backend/app.py:65-70 | a candidate is first tried at position Count(n-1) + Rank(s), for s of length n, and no earlier candidate equals it |
| Keyspace.CountClosedForm | backend/app.py:65-70 | the attempt count satisfies (b-1) * Count = b^(L+1) - b for a charset of size b |
| Keyspace.BinaryExample | backend/app.py:65-69 | charset "01" and maximum length 2 enumerate "0", "1", "00", "01", "10", "11" in that order |
| Keyspace.DuplicateExample | backend/app.py:68-69 | a repeated charset character is enumerated again: "aa" gives "a" twice |
| Search.Scan | backend/app.py:65-83 | the reference search stops at the first candidate that is not a miss, reporting it and its position, or reports exhaustion after all candidates were misses |
| Search.FirstDecisionUnique | backend/app.py:75-81 | at most one run can be the first decision, so the reference search is the only correct one |
| Search.ScanConsultsOnlyAttempted | backend/app.py:75-79 | candidates after the one that ended the search are never checked: verifiers that agree on the attempted prefix give the same run |
| Search.SearchLoop | backend/app.py:65-83 | the nested length and tuple loops, counting one attempt per candidate, compute exactly the reference search over the keyspace |
| Search.SearchLength | backend/app.py:68-81 | the inner loop for one length either stops on the first candidate of that length that is not a miss, or ends with all of them missed and Count(length) attempts |
| Search.FindsPasswordInKeyspace | backend/app.py:65-79 | an archive opened only by a password inside the keyspace yields that password after Count(n-1) + Rank(p) + 1 attempts, for p of length n, no more than the keyspace size |
| Search.FindsSingleCharacter | backend/app.py:65-79 | a one-character password is found on attempt IndexOf + 1 |
| Search.ExhaustsOutsideKeyspace | backend/app.py:65-83 | a password outside the keyspace is never found: the search ends with `None` after every candidate |
| Search.FortyTwoExample | backend/app.py:65-79 | with digits and maximum length 3, password "42" is found on attempt 53 |
| Search.TooLongExample | backend/app.py:65-83 | with digits and maximum length 3, a four-digit password is missed after 1110 attempts |
| Verifiers.SearchKeyspace | backend/app.py:65-86 | every candidate before the last one tried was a wrong password; a returned password was accepted, lies in the keyspace and is the last candidate tried; `None` means every candidate was a wrong password and all were tried; an exception carries the fault of the last candidate tried behind the prefix; without faults nothing is raised |
| Verifiers.EmptyKeyspace | backend/app.py:65-83 | with a maximum length of 0 or less, the search returns `None` after zero attempts, whatever the verifier |
| Verifiers.FirstEncrypted | backend/app.py:55-59 | the position of the first entry whose flag bit 0 is set; every entry before it is unencrypted |
| Verifiers.ZipAttempt | backend/app.py:75-81 | a ZIP read is a match exactly when it extracts, a miss exactly for `RuntimeError` or `BadZipFile`, and a fault carrying the exception's own message for any other exception |
| Verifiers.ReportAt | backend/app.py:65-83 | when candidate n is the first that is not a wrong password, the search ends after n+1 attempts, returning it if it matched and raising with its fault otherwise |
| Verifiers.ReportNone | backend/app.py:65-83 | when every candidate is a wrong password, the search returns `None` |
| Verifiers.BruteForceZipAsWritten | backend/app.py:48-86 | as written: an unreadable archive raises with the ZIP prefix after 0 attempts; no encrypted entry returns the sentinel; otherwise the keyspace is searched on the first entry |
| Verifiers.CorrectionAgrees | backend/app.py:55-79 | on an unreadable archive, an archive with no encrypted entry, or one whose first listed entry is encrypted, the corrected and the as-written ZIP searches give the same report |
| Verifiers.BruteForceZip | backend/app.py:48-86 | corrected: the same outcomes, with the keyspace searched on the first encrypted entry, so a returned password opens an encrypted entry |
| Verifiers.FirstPlainEntryBug | backend/app.py:55-79 | when the first entry is unencrypted, reads under every password, and another entry is encrypted, the code as written returns the first candidate after one attempt, whatever the password |
| Verifiers.PlainFirstEntryAsWritten | backend/app.py:55-86 | when the first entry is unencrypted and another is encrypted, the code as written depends only on how the plain entry reads: the first candidate after one attempt if it reads, `None` after every candidate if it fails like a wrong password, the prefixed error after one attempt otherwise, and `None` after 0 attempts for an empty keyspace |
| Verifiers.DirectoryEntryAsWritten | backend/app.py:55-79 | for a directory entry followed by a file encrypted with "7", the code as written returns "0", which does not open the file |
| Verifiers.DirectoryEntryCorrected | backend/app.py:65-79 | on the same archive the corrected search returns "7" after 8 attempts |
| Verifiers.RarAttempt | backend/app.py:117-127 | a 7z test is a match exactly when it exits with 0; a non-zero exit, a timeout or an exception is never a fault |
| Verifiers.BruteForceRar | backend/app.py:88-129 | without 7z it raises "7z tool not found"; a probe exiting 0 returns the sentinel; a probe that raises propagates its message; otherwise the search never raises and gives a password that passes `7z t`, or `None` after every candidate failed |
| Dispatch.RFind | backend/app.py:133 | the last position of a character, or -1 when it is absent |
| Dispatch.Extension | backend/app.py:133 | the extension is empty or starts with the only dot it contains, is a suffix of the path, and contains no separator; it is non-empty exactly when the last path component has a dot after some character other than a dot |
| Dispatch.NonEmptyExtension | backend/app.py:133 | the rfind-based test for a non-empty extension holds exactly when a dot in the last component follows a character other than a dot |
| Dispatch.ExtensionOfStem | backend/app.py:169-176 | a name ending in an ordinary character followed by an extension has exactly that extension |
| Dispatch.HiddenFileExample | backend/app.py:164 | ".zip" alone has no extension, as in `os.path.splitext` |
| Dispatch.DottedDirectoryExample | backend/app.py:164 | a dot in a directory name does not count: "a.b/archive.ZIP" has extension ".ZIP" |
| Dispatch.Lower | backend/app.py:164 | lower-casing keeps the length and lower-cases each ASCII capital |
| Dispatch.LowerMatches | backend/app.py:133-137 | an extension lower-cases to ".zip" or ".rar" exactly when each character is the target's or its capital |
| Dispatch.Available | backend/app.py:142 | a tool is listed exactly when it was found, each at most once, in the order unrar, 7z, winrar |
| Dispatch.Join | backend/app.py:144 | joining no names gives the empty string, one name gives that name, and a joined list starts with its first name |
| Dispatch.JoinAppend | backend/app.py:144 | appending a name appends the separator and the name to the joined text |
| Dispatch.RarMessageExample | backend/app.py:142-144 | with unrar and WinRAR but no 7z, a RAR archive raises "RAR support requires 7z tool. Available: unrar, winrar" after 0 attempts |
| Dispatch.Route | backend/app.py:135-148 | ".zip" runs the corrected ZIP search, which differs from the as-written one only when a plain entry is listed before the first encrypted one; ".rar" runs the 7z search when 7z is present and otherwise raises, listing the tools found or asking for one; anything else raises "Unsupported file format: " with the extension |
| Dispatch.BruteForceArchive | backend/app.py:131-148 | ".zip" runs the ZIP search; ".rar" runs the 7z search when 7z is present, and otherwise raises after 0 attempts, naming the tools found or asking for one; any other extension raises "Unsupported file format: " with the extension |
| Dispatch.DispatchIgnoresCase | backend/app.py:133 | a path and the same path with its extension lower-cased are searched alike |
| Dispatch.LowerIdempotent | backend/app.py:133 | lower-casing twice is lower-casing once |
| Crack.Respond | backend/app.py:184-198 | 500 exactly for an exception, carrying its text; 404 exactly for `None` or an empty password, with the "not found" error; the "not protected" message exactly for the sentinel; a password body exactly for any other string, with status 200 |
| Crack.Crack | backend/app.py:153-198 | 400 exactly when there is no file, the name is empty, or the lower-cased extension is not ".zip" or ".rar", each with the handler's message; otherwise the response is the search's result on the temporary file mapped by `Respond`, with the corrected ZIP search; then a returned password is a default candidate that opens the archive, "not protected" means the probe found no protection, 404 means every default candidate was rejected, and conversely the first opening candidate, an all-rejecting keyspace and a raising search give 200 with that password, 404 and 500 with the exception's message |
| Crack.HandlerSearch | backend/app.py:169-198 | for an allowed extension, the corrected search on the temporary file gives a response that is justified, complete and never 400 |
| Crack.ZipResponse | backend/app.py:184-198 | with the corrected ZIP search, every response to a ZIP upload is justified by the archive and is never 400 |
| Crack.RarResponse | backend/app.py:137-146 | every response to a RAR upload is justified by the archive and tools and is never 400 |
| Crack.ZipComplete | backend/app.py:48-86 | with the corrected ZIP search: an unprotected archive gives "not protected"; the first candidate that opens the encrypted entry, after only wrong passwords, gives 200 with it; all wrong passwords give 404; 500 comes exactly when the archive cannot be opened or a read fails with another exception, with that message |
| Crack.ZipRaises | backend/app.py:75-86 | the ZIP search raises exactly when some candidate's read fails with an exception other than a wrong password, after only wrong passwords |
| Crack.ZipFaultMessage | backend/app.py:75-86 | such a first bad read ends the search with "Error processing ZIP file: " and that read's message |
| Crack.RarComplete | backend/app.py:88-146 | without 7z the answer is 500 with the tool message; a probe exiting 0 gives "not protected"; a probe that raises gives 500 with its message; otherwise the first candidate `7z t` accepts, after only rejections, gives 200 with it, and all rejected gives 404 |
| Crack.HandlerAsWrittenDemo | backend/app.py:55-79 | as written, the handler answers a directory entry followed by a file encrypted with "7" with 200 and password "0", which does not open the encrypted file |
| Crack.TempPathExtension | backend/app.py:163-176 | the temporary file, named with the upload's lower-cased extension as suffix, is dispatched on that same extension |
| Crack.DefaultKeyspace | backend/app.py:176-185 | with the defaults (digits, length 4) the sentinel is not a candidate, and a fruitless search makes 11110 attempts |

## Left out

- The Flask application is not modelled: routing, CORS, request parsing, saving the upload, deleting the temporary file, logging, the `/status` endpoint and startup. The handler's inputs become a `Request` value.
- `check_rar_tools` probes the file system and `PATH`. Its result is the `Tools` input.
- ZIP entries are read by position, while `brute_force_zip` reads by file name; archives that repeat a file name, where the later entry wins the lookup, are not distinguished.
- `zipfile` and `subprocess` are not modelled. What they do on the given archive enters as the `Archive` parameters: an opened entry list or an open error, a per-entry reader, and the 7z probe and test results.
- The progress log every 100 attempts and the other log lines are not modelled: they do not affect any result.
- `os.path.splitext` is modelled with POSIX rules only. Windows separators are not modelled.
- `str.lower` is modelled on ASCII letters only. The only non-ASCII character whose lower case is ASCII, the Kelvin sign, becomes "k", which is in neither ".zip" nor ".rar", so the extension checks are decided exactly; the only difference is in the text of the "Unsupported file format: " message, which the handler's own check makes unreachable.
- `brute_force_rar_with_7z` looks 7z up again with `shutil.which`. The model uses the same `sevenZip` boolean as `check_rar_tools`, so "7z tool not found" cannot be reached through dispatch.
- The temporary file's name is random. Only its suffix matters, so the model uses a fixed stem that ends in an ordinary character.
- Crack.ZipResponse: requires a maximum length below 18, the sentinel's length, so that no found password equals the sentinel. With a longer maximum length and a charset holding the sentinel's letters, a found password equal to "NO_PASSWORD_NEEDED" would be answered "not protected". `Crack.Respond` maps it that way, as the handler does. The handler only uses length 4.
- Crack.RarResponse: requires a maximum length below 18, for the same reason.
- Crack.ZipComplete: requires a maximum length below 18, for the same reason.
- Crack.RarComplete: requires a maximum length below 18, for the same reason.
- Crack.HandlerSearch: requires a maximum length below 18, for the same reason; `Crack.Crack` uses 4.
- Dispatch.Route: it runs the corrected ZIP search (`Verifiers.BruteForceZip`), not `brute_force_zip` as written; `Verifiers.CorrectionAgrees` states when the two agree, and Findings shows where they differ.
- Dispatch.BruteForceArchive: it runs the corrected ZIP search (`Verifiers.BruteForceZip`), not the search as written; see Findings.
- Crack.Crack: its justification and completeness clauses hold for the corrected ZIP search only. As written, a ZIP whose first entry is unencrypted while another is encrypted is answered from that plain entry alone (`Verifiers.PlainFirstEntryAsWritten`): 200 with a password that opens nothing (`Crack.HandlerAsWrittenDemo`), 404 although a candidate opens the encrypted entry, or 500 with the plain entry's error.
- Crack.ZipResponse: states the corrected ZIP search only, for the same reason.
- Each verifier is a pure function of the candidate, so a candidate repeated by a charset with duplicate characters gets the same verdict every time. A 7z test that times out may pass on a later try of the same candidate in the real program; that nondeterminism is not modelled.
- Exceptions raised by the request handling itself (saving the upload, creating the temporary file) are not modelled: they would be reported as 500 with their text, as every other exception is.

## Findings

| source | as written | input that shows it | evidently intended | confidence | as-written member | corrected member |
|---|---|---|---|---|---|---|
| backend/app.py:55-79 | encryption is detected on any entry, but candidates are tried on `namelist()[0]`; `zipfile` ignores the password of an unencrypted entry, so the first candidate "opens" it | a ZIP whose first entry is the plain directory `docs/` and whose second entry `docs/secret.txt` is encrypted with "7": the result is "0" after one attempt | try candidates on an encrypted entry and return "7" after 8 attempts | not executed | Verifiers.DirectoryEntryAsWritten | Verifiers.DirectoryEntryCorrected |

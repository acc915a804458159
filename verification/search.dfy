/** The search loop shared by both archive formats: walk the keyspace, hand
    each candidate to a verifier, stop at the first candidate it accepts or
    at the first failure it does not treat as a wrong password. */
module Search {
  import opened Keyspace

  /** What one verification attempt says about one candidate: it opened the
      archive, it was a wrong password, or the archive could not be processed. */
  datatype Attempt = Match | Miss | Fault(reason: string)

  datatype Outcome = Found(password: string) | Exhausted | Aborted(reason: string)

  /** How a search ended, and how many candidates it handed to the verifier
      (`total_attempts` in `brute_force_zip`). */
  datatype Run = Run(outcome: Outcome, attempts: nat)

  /** The per-candidate check: the archive libraries and external tools, seen
      as a function of the candidate. */
  type Verifier = string -> Attempt

  /** The first `n` candidates were all wrong passwords. */
  ghost predicate MissesBefore(cands: seq<string>, verify: Verifier, n: nat)
    requires n <= |cands|
  {
    forall k :: 0 <= k < n ==> verify(cands[k]) == Miss
  }

  /** `run` is what stopping at the first candidate that is not a miss gives:
      that candidate's verdict and position, or exhaustion after all of them. */
  ghost predicate FirstDecision(cands: seq<string>, verify: Verifier, run: Run)
  {
    && run.attempts <= |cands|
    && match run.outcome
       case Exhausted =>
         run.attempts == |cands| && MissesBefore(cands, verify, |cands|)
       case Found(p) =>
         && 1 <= run.attempts
         && cands[run.attempts - 1] == p
         && verify(p) == Match
         && MissesBefore(cands, verify, run.attempts - 1)
       case Aborted(m) =>
         && 1 <= run.attempts
         && verify(cands[run.attempts - 1]) == Fault(m)
         && MissesBefore(cands, verify, run.attempts - 1)
  }

  /** Reference search over an explicit candidate list. */
  function Scan(cands: seq<string>, verify: Verifier): (run: Run)
    ensures FirstDecision(cands, verify, run)
    decreases |cands|
  {
    if cands == [] then Run(Exhausted, 0)
    else
      match verify(cands[0])
      case Match => Run(Found(cands[0]), 1)
      case Fault(m) => Run(Aborted(m), 1)
      case Miss =>
        var rest := Scan(cands[1..], verify);
        assert forall k :: 1 <= k < |cands| ==> cands[k] == cands[1..][k - 1];
        Run(rest.outcome, rest.attempts + 1)
  }

  /** At most one run is the first decision, so `Scan` is the only one. */
  lemma FirstDecisionUnique(cands: seq<string>, verify: Verifier, r1: Run, r2: Run)
    requires FirstDecision(cands, verify, r1) && FirstDecision(cands, verify, r2)
    ensures r1 == r2
  {
  }

  /** The verifier is consulted on the first `attempts` candidates only: a
      verifier that agrees there yields the same run, so nothing after the
      first match (or fault) is ever tried. */
  lemma {:induction false} ScanConsultsOnlyAttempted(cands: seq<string>, v1: Verifier, v2: Verifier)
    requires forall k :: 0 <= k < Scan(cands, v1).attempts ==> v1(cands[k]) == v2(cands[k])
    ensures Scan(cands, v2) == Scan(cands, v1)
    decreases |cands|
  {
    if cands != [] {
      assert v1(cands[0]) == v2(cands[0]);
      if v1(cands[0]) == Miss {
        var tail := cands[1..];
        forall k | 0 <= k < Scan(tail, v1).attempts ensures v1(tail[k]) == v2(tail[k]) {
          assert tail[k] == cands[k + 1];
        }
        ScanConsultsOnlyAttempted(tail, v1, v2);
      }
    }
  }

  /** Verifiers that agree everywhere give the same run. */
  lemma ScanPointwise(cands: seq<string>, v1: Verifier, v2: Verifier)
    requires forall p :: v1(p) == v2(p)
    ensures Scan(cands, v2) == Scan(cands, v1)
  {
    ScanConsultsOnlyAttempted(cands, v1, v2);
  }

  /** The loop of `brute_force_zip`: an outer loop over lengths, an inner loop over the
      tuples of that length, one attempt counted per candidate. */
  method SearchLoop(charset: Charset, maxLength: int, verify: Verifier) returns (run: Run)
    ensures FirstDecision(Candidates(charset, maxLength), verify, run)
    ensures run == Scan(Candidates(charset, maxLength), verify)
  {
    ghost var all := Candidates(charset, maxLength);
    CandidatesLength(charset, maxLength);
    var attempts: nat := 0;
    var length := 1;
    while length <= maxLength
      invariant 1 <= length && (length <= maxLength + 1 || length == 1)
      invariant attempts == Count(charset, length - 1)
      invariant attempts <= |all|
      invariant MissesBefore(all, verify, attempts)
    {
      var decided;
      decided, run := SearchLength(charset, maxLength, length, verify, attempts);
      if decided {
        return;
      }
      attempts := run.attempts;
      CandidatesLength(charset, length);
      length := length + 1;
    }
    run := Run(Exhausted, attempts);
    ExhaustsAfterMisses(all, verify);
  }

  /** The inner loop for one length: it either stops at the first candidate
      of that length that is not a miss, or counts them all as misses. */
  method SearchLength(charset: Charset, maxLength: int, length: int, verify: Verifier, start: nat)
    returns (decided: bool, run: Run)
    requires 1 <= length <= maxLength
    requires start == Count(charset, length - 1)
    requires start <= |Candidates(charset, maxLength)|
    requires MissesBefore(Candidates(charset, maxLength), verify, start)
    ensures decided ==> run == Scan(Candidates(charset, maxLength), verify)
    ensures decided ==> start < run.attempts <= Count(charset, length)
    ensures !decided ==> run == Run(Exhausted, Count(charset, length))
    ensures !decided ==> Count(charset, length) <= |Candidates(charset, maxLength)|
    ensures !decided ==> MissesBefore(Candidates(charset, maxLength), verify, Count(charset, length))
  {
    ghost var all := Candidates(charset, maxLength);
    var tuples := Product(charset, length);
    ProductLength(charset, length);
    var attempts := start;
    var j := 0;
    while j < |tuples|
      invariant 0 <= j <= |tuples|
      invariant attempts == start + j
      invariant attempts <= |all|
      invariant MissesBefore(all, verify, attempts)
    {
      var password := tuples[j];
      CandidatesAt(charset, maxLength, length, j);
      var verdict := verify(password);
      if verdict != Miss {
        run := Stop(password, verdict, attempts + 1);
        StopsAt(all, verify, attempts);
        AgreesWithScan(all, verify, run);
        CandidatesLength(charset, length);
        return true, run;
      }
      MissesExtend(all, verify, attempts);
      attempts := attempts + 1;
      j := j + 1;
    }
    return false, Run(Exhausted, attempts);
  }

  /** The run that ends on a candidate the verifier did not reject. */
  function Stop(password: string, verdict: Attempt, attempts: nat): Run
    requires verdict != Miss
  {
    if verdict == Match then Run(Found(password), attempts) else Run(Aborted(verdict.reason), attempts)
  }

  lemma StopsAt(cands: seq<string>, verify: Verifier, n: nat)
    requires n < |cands| && MissesBefore(cands, verify, n) && verify(cands[n]) != Miss
    ensures FirstDecision(cands, verify, Stop(cands[n], verify(cands[n]), n + 1))
  {
  }

  lemma ExhaustsAfterMisses(cands: seq<string>, verify: Verifier)
    requires MissesBefore(cands, verify, |cands|)
    ensures Scan(cands, verify) == Run(Exhausted, |cands|)
  {
    AgreesWithScan(cands, verify, Run(Exhausted, |cands|));
  }

  lemma AgreesWithScan(cands: seq<string>, verify: Verifier, run: Run)
    requires FirstDecision(cands, verify, run)
    ensures run == Scan(cands, verify)
  {
    FirstDecisionUnique(cands, verify, run, Scan(cands, verify));
  }

  lemma MissesExtend(cands: seq<string>, verify: Verifier, n: nat)
    requires n < |cands| && MissesBefore(cands, verify, n) && verify(cands[n]) == Miss
    ensures MissesBefore(cands, verify, n + 1)
  {
  }

  // ---------------------------------------------------------------------
  // Searches against an archive with one known password

  /** A verifier that accepts exactly `password` and never faults. */
  function Exact(password: string): Verifier
  {
    (s: string) => if s == password then Match else Miss
  }

  /** A password inside the keyspace is found, after every shorter candidate
      and its own rank among those of its length. */
  lemma FindsPasswordInKeyspace(cs: Charset, maxLength: int, password: string)
    requires 1 <= |password| <= maxLength && Over(password, cs)
    ensures Scan(Candidates(cs, maxLength), Exact(password))
         == Run(Found(password), Count(cs, |password| - 1) + Rank(cs, password) + 1)
    ensures Count(cs, |password| - 1) + Rank(cs, password) + 1 <= Count(cs, maxLength)
  {
    var all := Candidates(cs, maxLength);
    var k := Count(cs, |password| - 1) + Rank(cs, password);
    CandidateFirstIndex(cs, maxLength, password);
    CandidatesLength(cs, maxLength);
    var run := Run(Found(password), k + 1);
    assert FirstDecision(all, Exact(password), run);
    FirstDecisionUnique(all, Exact(password), run, Scan(all, Exact(password)));
  }

  lemma FoundAt(cs: Charset, maxLength: int, password: string, n: nat)
    requires 1 <= |password| <= maxLength && Over(password, cs)
    requires Count(cs, |password| - 1) + Rank(cs, password) + 1 == n
    ensures Scan(Candidates(cs, maxLength), Exact(password)) == Run(Found(password), n)
  {
    FindsPasswordInKeyspace(cs, maxLength, password);
  }

  /** A one-character password is found after the charset entries before
      its first occurrence. */
  lemma FindsSingleCharacter(cs: Charset, maxLength: int, c: char)
    requires c in cs && 1 <= maxLength
    ensures Scan(Candidates(cs, maxLength), Exact([c])) == Run(Found([c]), IndexOf(cs, c) + 1)
  {
    assert Over([c], cs);
    FindsPasswordInKeyspace(cs, maxLength, [c]);
    assert [c][1..] == [];
    assert Rank(cs, [c]) == IndexOf(cs, c) * Pow(|cs|, 0) + Rank(cs, []);
  }

  /** A password outside the keyspace is never found: every candidate is
      tried, sum_{k=1..L} |cs|^k attempts. */
  lemma ExhaustsOutsideKeyspace(cs: Charset, maxLength: int, password: string)
    requires !(1 <= |password| <= maxLength && Over(password, cs))
    ensures Scan(Candidates(cs, maxLength), Exact(password)) == Run(Exhausted, Count(cs, maxLength))
  {
    var all := Candidates(cs, maxLength);
    CandidatesLength(cs, maxLength);
    forall k | 0 <= k < |all| ensures Exact(password)(all[k]) == Miss {
      CandidateMember(cs, maxLength, all[k]);
    }
    var run := Run(Exhausted, Count(cs, maxLength));
    FirstDecisionUnique(all, Exact(password), run, Scan(all, Exact(password)));
  }

  /** Digits up to length 3 with password "42": found on attempt 53
      (10 one-digit candidates, then "00" .. "41", then "42"). */
  lemma FortyTwoExample()
    ensures Scan(Candidates("0123456789", 3), Exact("42")) == Run(Found("42"), 53)
  {
    var digits: Charset := "0123456789";
    DigitsRank();
    assert Count(digits, 1) == 10;
    FoundAt(digits, 3, "42", 53);
  }

  lemma DigitsRank()
    ensures Over("42", "0123456789") && Rank("0123456789", "42") == 42
  {
    var digits: Charset := "0123456789";
    assert "42"[0] == digits[4] && "42"[1] == digits[2];
    DigitIndex('4', 4);
    DigitIndex('2', 2);
    TwoCharacterRank(digits, "42");
  }

  /** A two-character candidate's rank is a two-digit numeral in base |cs|. */
  lemma TwoCharacterRank(cs: Charset, s: string)
    requires |s| == 2 && Over(s, cs)
    ensures Rank(cs, s) == IndexOf(cs, s[0]) * |cs| + IndexOf(cs, s[1])
  {
    var tail := s[1..];
    assert tail[0] == s[1] && tail[1..] == [];
    var hi, lo := IndexOf(cs, s[0]), IndexOf(cs, s[1]);
    assert Pow(|cs|, 0) == 1;
    assert Pow(|cs|, 1) == |cs|;
    assert Rank(cs, tail) == lo * 1 + Rank(cs, []);
    assert Rank(cs, s) == hi * Pow(|cs|, 1) + Rank(cs, tail);
  }

  /** A decimal digit's charset position is its value. */
  lemma DigitIndex(d: char, i: nat)
    requires i < 10 && "0123456789"[i] == d
    ensures IndexOf("0123456789", d) == i
  {
    var digits: Charset := "0123456789";
    assert forall k :: 0 <= k < 10 ==> digits[k] as int == 48 + k;
  }

  /** With ten symbols there are 10, 110, 1110 and 11110 candidates of up
      to one, two, three and four characters. */
  lemma CountOfTen(cs: Charset)
    requires |cs| == 10
    ensures Count(cs, 1) == 10 && Count(cs, 2) == 110 && Count(cs, 3) == 1110 && Count(cs, 4) == 11110
  {
    assert Pow(10, 1) == 10 * Pow(10, 0);
    assert Pow(10, 2) == 10 * Pow(10, 1);
    assert Pow(10, 3) == 10 * Pow(10, 2);
    assert Pow(10, 4) == 10 * Pow(10, 3);
    assert Count(cs, 0) == 0;
  }

  /** A password one character too long is missed after all 1110 candidates. */
  lemma TooLongExample()
    ensures Scan(Candidates("0123456789", 3), Exact("1234")) == Run(Exhausted, 1110)
  {
    ExhaustsOutsideKeyspace("0123456789", 3, "1234");
    CountOfTen("0123456789");
  }
}

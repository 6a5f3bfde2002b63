/** The brute-force search of `unlock_zip`: every password of length 6 over
    the digits and lower-case letters is tried, in `itertools.product` order,
    until the archive accepts one. */
module DoorHacking {
  import opened Wrappers

  /** `string.digits + string.ascii_lowercase`. */
  const PasswordSet: string := "0123456789abcdefghijklmnopqrstuvwxyz"
  const PasswordLen: nat := 6

  /** The symbol of index `i` in the password alphabet. */
  function Symbol(i: nat): char
    requires i < 36
  {
    if i < 10 then ('0' as int + i) as char else ('a' as int + i - 10) as char
  }

  predicate IsSymbol(c: char) {
    '0' <= c <= '9' || 'a' <= c <= 'z'
  }

  /** Index of a symbol in the alphabet. */
  function Ord(c: char): (i: nat)
    requires IsSymbol(c)
    ensures i < 36 && Symbol(i) == c
  {
    if c <= '9' then c as int - '0' as int else c as int - 'a' as int + 10
  }

  lemma OrdOfSymbol(i: nat)
    requires i < 36
    ensures IsSymbol(Symbol(i)) && Ord(Symbol(i)) == i
  {
  }

  /** The alphabet constant lists the symbols in index order, so its members are the symbols. */
  lemma PasswordSetIsSymbols()
    ensures |PasswordSet| == 36
    ensures forall i | 0 <= i < 36 :: PasswordSet[i] == Symbol(i)
    ensures forall c :: c in PasswordSet <==> IsSymbol(c)
  {
    assert PasswordSet == seq(36, i requires 0 <= i < 36 => Symbol(i));
    forall c | IsSymbol(c) ensures c in PasswordSet {
      assert PasswordSet[Ord(c)] == c;
    }
    forall c | c in PasswordSet ensures IsSymbol(c) {
      var i :| 0 <= i < 36 && PasswordSet[i] == c;
      OrdOfSymbol(i);
    }
  }

  /** A string the search can produce: the right length, over the alphabet. */
  predicate InKeyspace(s: string) {
    |s| == PasswordLen && forall i | 0 <= i < |s| :: IsSymbol(s[i])
  }

  function Pow36(n: nat): (p: nat)
    ensures p > 0
  {
    if n == 0 then 1 else 36 * Pow36(n - 1)
  }

  /** Number of candidates: 36 to the power 6. */
  const KeyspaceSize: nat := Pow36(PasswordLen)

  /** The candidate at 0-based position `k` among the strings of length `n`:
      the digits of `k` in base 36, the last symbol varying fastest. */
  function Candidate(k: nat, n: nat): (s: string)
    ensures |s| == n && forall i | 0 <= i < n :: IsSymbol(s[i])
  {
    if n == 0 then [] else Candidate(k / 36, n - 1) + [Symbol(k % 36)]
  }

  /** Position of a string in the enumeration: its value as a base-36 numeral. */
  function Rank(s: string): (k: nat)
    requires forall i | 0 <= i < |s| :: IsSymbol(s[i])
    ensures k < Pow36(|s|)
  {
    if s == [] then 0 else 36 * Rank(s[..|s| - 1]) + Ord(s[|s| - 1])
  }

  /** Each position below 36^n is produced by the candidate at that position. */
  lemma {:induction false} RankOfCandidate(k: nat, n: nat)
    requires k < Pow36(n)
    ensures Rank(Candidate(k, n)) == k
  {
    if n > 0 {
      var s := Candidate(k, n);
      assert s[..n - 1] == Candidate(k / 36, n - 1);
      RankOfCandidate(k / 36, n - 1);
      OrdOfSymbol(k % 36);
    }
  }

  /** Every string over the alphabet is produced, at the position given by its rank. */
  lemma {:induction false} CandidateOfRank(s: string)
    requires forall i | 0 <= i < |s| :: IsSymbol(s[i])
    ensures Candidate(Rank(s), |s|) == s
  {
    if s != [] {
      var init := s[..|s| - 1];
      CandidateOfRank(init);
      var k := Rank(s);
      assert k / 36 == Rank(init) && k % 36 == Ord(s[|s| - 1]);
      assert s == init + [s[|s| - 1]];
    }
  }

  /** Lexicographic order on equal-length strings by symbol index. */
  predicate LexBefore(s: string, t: string)
    requires |s| == |t|
    requires forall i | 0 <= i < |s| :: IsSymbol(s[i])
    requires forall i | 0 <= i < |t| :: IsSymbol(t[i])
  {
    |s| > 0 &&
    (LexBefore(s[..|s| - 1], t[..|t| - 1]) ||
     (s[..|s| - 1] == t[..|t| - 1] && Ord(s[|s| - 1]) < Ord(t[|t| - 1])))
  }

  /** Strings earlier in lexicographic order have smaller rank. */
  lemma {:induction false} RankMonotone(s: string, t: string)
    requires |s| == |t|
    requires forall i | 0 <= i < |s| :: IsSymbol(s[i])
    requires forall i | 0 <= i < |t| :: IsSymbol(t[i])
    requires LexBefore(s, t)
    ensures Rank(s) < Rank(t)
  {
    if LexBefore(s[..|s| - 1], t[..|t| - 1]) {
      RankMonotone(s[..|s| - 1], t[..|t| - 1]);
    }
  }

  /** The enumeration visits candidates in strictly increasing lexicographic order. */
  lemma {:induction false} CandidatesInLexOrder(k1: nat, k2: nat, n: nat)
    requires k1 < k2 < Pow36(n)
    ensures LexBefore(Candidate(k1, n), Candidate(k2, n))
  {
    var s, t := Candidate(k1, n), Candidate(k2, n);
    assert n > 0;
    assert s[..n - 1] == Candidate(k1 / 36, n - 1);
    assert t[..n - 1] == Candidate(k2 / 36, n - 1);
    OrdOfSymbol(k1 % 36);
    OrdOfSymbol(k2 % 36);
    if k1 / 36 < k2 / 36 {
      CandidatesInLexOrder(k1 / 36, k2 / 36, n - 1);
    }
  }

  /** How the attempt to extract with a password ended: success, or the
      exception raised. */
  datatype ExtractOutcome = Extracted | RuntimeError | BadZipFile | OtherError

  /** How opening the archive ended. */
  datatype ArchiveStatus = Opened | FileNotFound | OpenError

  /** A progress line: the attempt count and the password being tried. */
  datatype Progress = Progress(attempts: nat, password: string)

  /** The progress lines printed after `attempts` attempts: one per full thousand. */
  predicate ReportsUpTo(reports: seq<Progress>, attempts: nat) {
    |reports| == attempts / 1000 &&
    forall i | 0 <= i < |reports| ::
      reports[i] == Progress((i + 1) * 1000, Candidate((i + 1) * 1000 - 1, PasswordLen))
  }

  /** The line written to the password file once the archive is opened. */
  function PasswordRecord(password: string): string {
    "ZIP 파일 암호: " + password + "\n"
  }

  /** `unlock_zip`. `extract` stands for `zf.extractall` with a password;
      every exception it raises counts as a rejection. */
  method UnlockZip(status: ArchiveStatus, extract: string -> ExtractOutcome)
    returns (found: Option<string>, attempts: nat, reports: seq<Progress>)
    // An archive that cannot be opened gives no result and no attempts.
    ensures status != Opened ==> found == None && attempts == 0 && reports == []
    // A found password is accepted, and it is the candidate of the last attempt.
    ensures found.Some? ==>
      InKeyspace(found.value) && extract(found.value) == Extracted
      && 1 <= attempts <= KeyspaceSize && found.value == Candidate(attempts - 1, PasswordLen)
    // Every attempt before the last was rejected.
    ensures forall k | 0 <= k < attempts - 1 :: extract(Candidate(k, PasswordLen)) != Extracted
    // So the found password is the first accepted one in lexicographic order.
    ensures found.Some? ==>
      forall pw | InKeyspace(pw) && LexBefore(pw, found.value) :: extract(pw) != Extracted
    // Giving up after an opened archive means all 36^6 candidates were rejected.
    ensures status == Opened && found.None? ==>
      attempts == KeyspaceSize && forall pw | InKeyspace(pw) :: extract(pw) != Extracted
    ensures ReportsUpTo(reports, attempts)
  {
    found, attempts, reports := None, 0, [];
    if status != Opened {
      return;
    }
    while attempts < KeyspaceSize
      invariant attempts <= KeyspaceSize
      invariant forall k | 0 <= k < attempts :: extract(Candidate(k, PasswordLen)) != Extracted
      invariant ReportsUpTo(reports, attempts)
    {
      var password := Candidate(attempts, PasswordLen);
      ReportStep(reports, attempts);
      attempts := attempts + 1;
      if attempts % 1000 == 0 {
        reports := reports + [Progress(attempts, password)];
      }
      if extract(password) == Extracted {
        found := Some(password);
        FirstAccepted(extract, attempts - 1);
        return;
      }
    }
    AllRejected(extract);
  }

  /** The reports after one attempt more: a new line exactly when the count
      reaches a multiple of 1000. */
  lemma ReportStep(reports: seq<Progress>, attempts: nat)
    requires ReportsUpTo(reports, attempts)
    ensures (attempts + 1) % 1000 == 0 ==>
      ReportsUpTo(reports + [Progress(attempts + 1, Candidate(attempts, PasswordLen))], attempts + 1)
    ensures (attempts + 1) % 1000 != 0 ==> ReportsUpTo(reports, attempts + 1)
  {
    var q, r := attempts / 1000, attempts % 1000;
    assert attempts + 1 == 1000 * q + (r + 1);
    if r + 1 == 1000 {
      assert attempts + 1 == 1000 * (q + 1);
      assert (attempts + 1) / 1000 == q + 1;
    } else {
      assert (attempts + 1) / 1000 == q;
    }
  }

  /** The candidate of the first accepting attempt is the first accepted
      string in lexicographic order. */
  lemma FirstAccepted(extract: string -> ExtractOutcome, n: nat)
    requires n < KeyspaceSize
    requires forall k | 0 <= k < n :: extract(Candidate(k, PasswordLen)) != Extracted
    ensures forall pw | InKeyspace(pw) && LexBefore(pw, Candidate(n, PasswordLen)) :: extract(pw) != Extracted
  {
    var password := Candidate(n, PasswordLen);
    forall pw | InKeyspace(pw) && LexBefore(pw, password)
      ensures extract(pw) != Extracted
    {
      RankMonotone(pw, password);
      RankOfCandidate(n, PasswordLen);
      CandidateOfRank(pw);
    }
  }

  /** Rejecting every position rejects every string over the alphabet. */
  lemma AllRejected(extract: string -> ExtractOutcome)
    requires forall k | 0 <= k < KeyspaceSize :: extract(Candidate(k, PasswordLen)) != Extracted
    ensures forall pw | InKeyspace(pw) :: extract(pw) != Extracted
  {
    forall pw | InKeyspace(pw) ensures extract(pw) != Extracted {
      CandidateOfRank(pw);
    }
  }
}

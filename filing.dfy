/**
 * The bug-filing side of the cloud: the filing status a finding shows
 * (`getBugLinkStatus`), whether it counts as already filed
 * (`bugAlreadyFiled`), the `Integer.parseInt` test that tells a tracker
 * number apart from other link text, and the ladder of ever shorter bug
 * reports `getBugLink` tries to fit into a URL.
 */
module Filing {
  import opened JavaLong
  import opened Designations

  /** The bug link of a finding whose filing was requested but not confirmed. */
  const PENDING: string := "-- pending --"
  /** The bug link the database stores for a finding never filed. */
  const NONE: string := "none"
  /** Two hours: a pending filing by someone else is offered again after this. */
  const FILING_TIMEOUT: int := 2 * 60 * 60 * 1000

  /** `Cloud.BugFilingStatus`. */
  datatype FilingStatus = FILE_BUG | FILE_AGAIN | BUG_PENDING | VIEW_BUG | NA

  /** A result or the `IllegalArgumentException` the source throws. */
  datatype Checked<T> = Ok(value: T) | IllegalArgument

  // ---------------------------------------------------------------- Integer.parseInt

  predicate IsDigit(c: char)
  {
    '0' <= c <= '9'
  }

  predicate AllDigits(s: string)
  {
    forall i :: 0 <= i < |s| ==> IsDigit(s[i])
  }

  /** The value of a string of decimal digits, most significant first. */
  function DigitsValue(s: string): (v: nat)
    requires AllDigits(s)
  {
    if s == [] then 0
    else DigitsValue(s[..|s| - 1]) * 10 + (s[|s| - 1] as int - '0' as int)
  }

  /** `s` without the one leading sign `Integer.parseInt` accepts. */
  function Unsigned(s: string): (t: string)
    requires |s| > 0
    ensures |t| == |s| || (|t| == |s| - 1 && (s[0] == '-' || s[0] == '+'))
    ensures forall i :: 0 < i < |s| ==> s[i] in t
  {
    if s[0] == '-' || s[0] == '+' then s[1..] else s
  }

  /**
   * `Integer.parseInt(s)`: an optional sign followed by at least one digit,
   * whose value fits in an `int`; None stands for the NumberFormatException.
   */
  function ParseInt(s: string): (r: Option<int>)
    ensures r.Some? ==> INT_MIN <= r.value <= INT_MAX
    ensures r.Some? ==> exists k :: 0 <= k < |s| && IsDigit(s[k])
    ensures r.Some? && !IsDigit(s[0]) ==> s[0] == '-' || s[0] == '+'
    ensures r.Some? ==> |s| > 0 && |Unsigned(s)| > 0 && AllDigits(Unsigned(s))
    ensures r.Some? ==> r.value == (if s[0] == '-' then 0 - DigitsValue(Unsigned(s)) as int else DigitsValue(Unsigned(s)))
    ensures |s| > 0 && |Unsigned(s)| > 0 && AllDigits(Unsigned(s)) && DigitsValue(Unsigned(s)) <= INT_MAX ==> r.Some?
  {
    if |s| == 0 then None
    else
      var signed := s[0] == '-' || s[0] == '+';
      var digits := if signed then s[1..] else s;
      if |digits| == 0 || !AllDigits(digits) then None
      else
        assert IsDigit(digits[0]) && (signed ==> s[1] == digits[0]);
        var n: int := DigitsValue(digits);
        var v := if s[0] == '-' then 0 - n else n;
        if INT_MIN <= v <= INT_MAX then Some(v) else None
  }

  /** The decimal digits of `n`, as `Integer.toString` writes them. */
  function NatToString(n: nat): (s: string)
    ensures |s| > 0 && AllDigits(s)
  {
    var c := ('0' as int + n % 10) as char;
    if n < 10 then [c] else NatToString(n / 10) + [c]
  }

  /** Reading the digits of `n` back gives `n`. */
  lemma {:induction false} DigitsOfNatToString(n: nat)
    ensures DigitsValue(NatToString(n)) == n
  {
    var s := NatToString(n);
    if n >= 10 {
      DigitsOfNatToString(n / 10);
      assert s[..|s| - 1] == NatToString(n / 10);
    }
  }

  /** Every `int` written in decimal parses back to itself. */
  lemma ParseIntRoundTrip(n: int)
    requires INT_MIN <= n <= INT_MAX
    ensures n >= 0 ==> ParseInt(NatToString(n)) == Some(n)
    ensures n < 0 ==> ParseInt("-" + NatToString(-n)) == Some(n)
  {
    if n >= 0 {
      DigitsOfNatToString(n);
    } else {
      DigitsOfNatToString(-n);
      assert ("-" + NatToString(-n))[1..] == NatToString(-n);
    }
  }

  /** A character other than a digit anywhere after the first makes `parseInt` throw. */
  lemma NonDigitRejects(s: string, i: nat)
    requires 0 < i < |s| && !IsDigit(s[i])
    ensures ParseInt(s).None?
  {
  }

  // ---------------------------------------------------------------- status

  /** No filing on record: null, empty or "none". */
  predicate Unfiled(link: Option<string>)
  {
    link.None? || link.value == "" || link.value == NONE
  }

  /** A pending filing made at `bugFiled` has aged out at `now`. */
  predicate Expired(now: long, bugFiled: long)
  {
    Sub(now, bugFiled) > FILING_TIMEOUT
  }

  /**
   * `getBugLinkStatus` for a finding with the given bug link, filer and filing
   * time, seen by `user` at time `now`.
   */
  function BugLinkStatus(link: Option<string>, filedBy: Option<string>, bugFiled: long, user: string, now: long): (st: FilingStatus)
    ensures st == FILE_AGAIN <==> !Unfiled(link) && link.value == PENDING && filedBy == Some(user)
    ensures st == BUG_PENDING <==> !Unfiled(link) && link.value == PENDING && filedBy != Some(user) && !Expired(now, bugFiled)
    ensures st == FILE_BUG <==> Unfiled(link) || (link.value == PENDING && filedBy != Some(user) && Expired(now, bugFiled))
    ensures st == VIEW_BUG <==> !Unfiled(link) && link.value != PENDING && ParseInt(link.value).Some?
    ensures st == NA <==> !Unfiled(link) && link.value != PENDING && ParseInt(link.value).None?
  {
    if Unfiled(link) then FILE_BUG
    else if link.value == PENDING then
      if filedBy == Some(user) then FILE_AGAIN
      else if Expired(now, bugFiled) then FILE_BUG
      else BUG_PENDING
    else if ParseInt(link.value).Some? then VIEW_BUG
    else NA
  }

  /**
   * Right after `user` files a finding at `filedAt`, the filer is offered to
   * file it again at any later time, while anyone else sees it pending for
   * two hours and may file it afresh after that.
   */
  lemma StatusAfterFiling(user: string, viewer: string, filedAt: long, now: long)
    requires 0 <= filedAt <= now
    ensures BugLinkStatus(Some(PENDING), Some(user), filedAt, user, now) == FILE_AGAIN
    ensures viewer != user && now - filedAt <= FILING_TIMEOUT ==>
      BugLinkStatus(Some(PENDING), Some(user), filedAt, viewer, now) == BUG_PENDING
    ensures viewer != user && now - filedAt > FILING_TIMEOUT ==>
      BugLinkStatus(Some(PENDING), Some(user), filedAt, viewer, now) == FILE_BUG
  {
    SubNonNegative(now, filedAt);
  }

  /** Once a pending filing has aged out it stays aged out, as long as no wrap-around occurs. */
  lemma AgedOutStaysAgedOut(link: Option<string>, filedBy: Option<string>, bugFiled: long, user: string, now: long, later: long)
    requires 0 <= bugFiled <= now <= later
    requires BugLinkStatus(link, filedBy, bugFiled, user, now) == FILE_BUG
    ensures BugLinkStatus(link, filedBy, bugFiled, user, later) == FILE_BUG
  {
    if !Unfiled(link) {
      SubNonNegative(now, bugFiled);
      SubNonNegative(later, bugFiled);
    }
  }

  /** A bug link holding any `int` in decimal is viewable, whoever looks and whenever. */
  lemma TrackerNumberIsViewable(n: nat, filedBy: Option<string>, bugFiled: long, user: string, now: long)
    requires n <= INT_MAX
    ensures BugLinkStatus(Some(NatToString(n)), filedBy, bugFiled, user, now) == VIEW_BUG
  {
    ParseIntRoundTrip(n);
    var s := NatToString(n);
    assert s != NONE by { assert IsDigit(s[0]) && !IsDigit(NONE[0]); }
    assert s != PENDING by { assert IsDigit(s[0]) && !IsDigit(PENDING[0]); }
  }

  /**
   * A bug link other than the markers that holds a non-digit after its
   * first character (a URL, a project-prefixed key) shows NA.
   */
  lemma TextLinkIsNotViewable(link: string, i: nat, filedBy: Option<string>, bugFiled: long, user: string, now: long)
    requires link != "" && link != NONE && link != PENDING
    requires 0 < i < |link| && !IsDigit(link[i])
    ensures BugLinkStatus(Some(link), filedBy, bugFiled, user, now) == NA
  {
    NonDigitRejects(link, i);
  }

  // ---------------------------------------------------------------- already filed

  /**
   * `bugAlreadyFiled`: illegal for a finding not in the database; otherwise a
   * link that is neither null, "none" nor pending counts as filed.
   */
  function AlreadyFiled(inDatabase: bool, link: Option<string>): (r: Checked<bool>)
    ensures r.IllegalArgument? <==> !inDatabase
  {
    if !inDatabase then IllegalArgument
    else Ok(link.Some? && link.value != NONE && link.value != PENDING)
  }

  /**
   * For a finding in the database, `bugAlreadyFiled` agrees with the status:
   * filed exactly when the status is VIEW_BUG or NA, except for an empty
   * link, which the status offers to file while `bugAlreadyFiled` counts it
   * as filed.
   */
  lemma AlreadyFiledAgreesWithStatus(link: Option<string>, filedBy: Option<string>, bugFiled: long, user: string, now: long)
    requires link != Some("")
    ensures AlreadyFiled(true, link) == Ok(BugLinkStatus(link, filedBy, bugFiled, user, now) in {VIEW_BUG, NA})
  {
  }

  /** An empty link is offered for filing, yet `bugAlreadyFiled` counts it as filed. */
  lemma EmptyLinkCountsAsFiled(filedBy: Option<string>, bugFiled: long, user: string, now: long)
    ensures BugLinkStatus(Some(""), filedBy, bugFiled, user, now) == FILE_BUG
    ensures AlreadyFiled(true, Some("")) == Ok(true)
  {
  }

  // ---------------------------------------------------------------- URL ladder

  /** Longest bug-entry URL `getBugLink` aims for. */
  const MAX_URL_LENGTH: nat := 1999
  /** A link longer than this sets the error message. */
  const LONG_LINK_WARNING: nat := 1500

  /** The three bug reports, longest first. */
  datatype ReportLevel = Full | Shorter | Abridged

  /**
   * The report `getBugLink` puts in the URL, the URL's length, whether the
   * cut text is shown in a separate message, and whether the length is
   * reported as an error.
   */
  datatype LinkChoice = LinkChoice(level: ReportLevel, length: nat, supplemental: bool, warn: bool)

  /** The URL length of the report at `level`. */
  function LengthAt(level: ReportLevel, fullLen: nat, shorterLen: nat, abridgedLen: nat): (n: nat)
  {
    match level
    case Full => fullLen
    case Shorter => shorterLen
    case Abridged => abridgedLen
  }

  /**
   * The ladder of `getBugLink` over the URL lengths the three reports give:
   * the first that fits, else the abridged report, which is then used
   * whether or not it fits and always comes with a supplemental message.
   */
  function ChooseBugLink(fullLen: nat, shorterLen: nat, abridgedLen: nat): (c: LinkChoice)
    ensures c.length == LengthAt(c.level, fullLen, shorterLen, abridgedLen)
    ensures c.supplemental <==> c.level == Abridged
    ensures c.warn <==> c.length > LONG_LINK_WARNING
  {
    var level :=
      if fullLen <= MAX_URL_LENGTH then Full
      else if shorterLen <= MAX_URL_LENGTH then Shorter
      else Abridged;
    var len := LengthAt(level, fullLen, shorterLen, abridgedLen);
    LinkChoice(level, len, level == Abridged, len > LONG_LINK_WARNING)
  }

  /**
   * The ladder picks the most detailed report that fits; a report is dropped
   * only when every more detailed one is too long, and the chosen URL is too
   * long only when all three are.
   */
  lemma LadderPicksFirstFit(fullLen: nat, shorterLen: nat, abridgedLen: nat)
    ensures var c := ChooseBugLink(fullLen, shorterLen, abridgedLen);
      && (c.level == Full <==> fullLen <= MAX_URL_LENGTH)
      && (c.level == Shorter <==> fullLen > MAX_URL_LENGTH && shorterLen <= MAX_URL_LENGTH)
      && (c.length > MAX_URL_LENGTH <==>
            fullLen > MAX_URL_LENGTH && shorterLen > MAX_URL_LENGTH && abridgedLen > MAX_URL_LENGTH)
  {
  }
}

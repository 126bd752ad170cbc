/**
 * The designation ("evaluation") history of one finding and the read-side
 * queries over it: the current user's own designation, who reviewed the
 * finding, whether someone claimed it, and which evaluations the cloud
 * report lists.
 *
 * A record's designations are a Java `TreeSet<BugDesignation>`; here they are
 * the sequence that set yields when iterated. Its order comes from
 * `BugDesignation.compareTo`, which is not part of this model: it is a
 * comparison function handed to `Insert`.
 */
module Designations {
  import opened JavaLong

  datatype Option<T> = None | Some(value: T)

  /** The cloud mode: who may see whose evaluations. */
  datatype Mode = SECRET | COMMUNAL | VOTING

  /** Names of the `UserDesignation` values the core reads. */
  const I_WILL_FIX: string := "I_WILL_FIX"
  const UNCLASSIFIED: string := "UNCLASSIFIED"

  /**
   * One user's evaluation of a finding (`BugDesignation`). The Java user and
   * annotation text may be null, hence the options.
   */
  datatype Designation = Designation(key: string, timestamp: long, text: Option<string>, user: Option<string>)

  /** Whether position `i` holds the first designation of its user. */
  ghost predicate FirstOfItsUser(ds: seq<Designation>, i: int)
    requires 0 <= i < |ds|
  {
    forall j :: 0 <= j < i ==> ds[j].user != ds[i].user
  }

  // ---------------------------------------------------------------- own designation

  /**
   * `BugData.getUserDesignation`: the first designation, in set order, whose
   * user is `user` (Java returns a copy; a value is its own copy).
   */
  function UserDesignation(ds: seq<Designation>, user: string): (r: Option<Designation>)
    ensures r.None? <==> forall i :: 0 <= i < |ds| ==> ds[i].user != Some(user)
    ensures r.Some? ==> exists i :: 0 <= i < |ds| && ds[i] == r.value && r.value.user == Some(user) && FirstOfItsUser(ds, i)
  {
    if ds == [] then None
    else if ds[0].user == Some(user) then
      assert FirstOfItsUser(ds, 0);
      Some(ds[0])
    else
      var r := UserDesignation(ds[1..], user);
      assert r.Some? ==> exists i :: 0 <= i < |ds| && ds[i] == r.value && r.value.user == Some(user) && FirstOfItsUser(ds, i) by {
        if r.Some? {
          var i :| 0 <= i < |ds[1..]| && ds[1..][i] == r.value && r.value.user == Some(user) && FirstOfItsUser(ds[1..], i);
          assert FirstOfItsUser(ds, i + 1);
        }
      }
      r
  }

  /** `BugData.hasVoted`: the user has some designation for the finding. */
  function HasVoted(ds: seq<Designation>, user: string): (r: bool)
    ensures r <==> exists i :: 0 <= i < |ds| && ds[i].user == Some(user)
    ensures r <==> UserDesignation(ds, user).Some?
  {
    if ds == [] then false
    else ds[0].user == Some(user) || HasVoted(ds[1..], user)
  }

  /**
   * `BugData.getNonnullUserDesignation`: the user's own designation, or a
   * fresh UNCLASSIFIED one with empty text stamped `now` (the clock reading
   * the source takes).
   */
  function NonnullUserDesignation(ds: seq<Designation>, user: string, now: long): (r: Designation)
    ensures r.user == Some(user)
    ensures HasVoted(ds, user) ==> r in ds && r == UserDesignation(ds, user).value
    ensures !HasVoted(ds, user) ==> r.key == UNCLASSIFIED && r.text == Some("") && r.timestamp == now
  {
    match UserDesignation(ds, user)
    case Some(d) => d
    case None => Designation(UNCLASSIFIED, now, Some(""), Some(user))
  }

  // ---------------------------------------------------------------- reviewers

  /** The users (null included) of all designations: the HashSet the loop fills. */
  function Users(ds: seq<Designation>): (r: set<Option<string>>)
    ensures forall u :: u in r <==> exists i :: 0 <= i < |ds| && ds[i].user == u
  {
    if ds == [] then {}
    else
      var rest := Users(ds[1..]);
      assert forall u :: u in rest <==> exists i :: 1 <= i < |ds| && ds[i].user == u by {
        forall u | u in rest ensures exists i :: 1 <= i < |ds| && ds[i].user == u {
          var k :| 0 <= k < |ds[1..]| && ds[1..][k].user == u;
          assert ds[k + 1].user == u;
        }
      }
      {ds[0].user} + rest
  }

  /** `BugData.getReviewers`: the designation users, without "" and null. */
  function Reviewers(ds: seq<Designation>): (r: set<string>)
    ensures forall u :: u in r <==> u != "" && exists i :: 0 <= i < |ds| && ds[i].user == Some(u)
  {
    set o | o in Users(ds) && o.Some? && o.value != "" :: o.value
  }

  // ---------------------------------------------------------------- claimed

  /**
   * Where the first claim after `seen` lies: either the first designation,
   * when its user is new and its key is I_WILL_FIX, or further on, with that
   * user now met.
   */
  lemma FirstClaimShift(ds: seq<Designation>, seen: set<Option<string>>)
    requires ds != []
    ensures (exists i :: 0 <= i < |ds| && ds[i].key == I_WILL_FIX && ds[i].user !in seen && FirstOfItsUser(ds, i)) <==>
      (ds[0].user !in seen && ds[0].key == I_WILL_FIX) ||
      exists i :: 0 <= i < |ds[1..]| && ds[1..][i].key == I_WILL_FIX && ds[1..][i].user !in seen + {ds[0].user} && FirstOfItsUser(ds[1..], i)
  {
    var seen' := seen + {ds[0].user};
    if exists i :: 0 <= i < |ds| && ds[i].key == I_WILL_FIX && ds[i].user !in seen && FirstOfItsUser(ds, i) {
      var i :| 0 <= i < |ds| && ds[i].key == I_WILL_FIX && ds[i].user !in seen && FirstOfItsUser(ds, i);
      if i > 0 {
        assert ds[1..][i - 1] == ds[i];
        assert FirstOfItsUser(ds[1..], i - 1);
      }
    }
    if ds[0].user !in seen && ds[0].key == I_WILL_FIX {
      assert FirstOfItsUser(ds, 0);
    } else if exists k :: 0 <= k < |ds[1..]| && ds[1..][k].key == I_WILL_FIX && ds[1..][k].user !in seen' && FirstOfItsUser(ds[1..], k) {
      var k :| 0 <= k < |ds[1..]| && ds[1..][k].key == I_WILL_FIX && ds[1..][k].user !in seen' && FirstOfItsUser(ds[1..], k);
      assert FirstOfItsUser(ds, k + 1);
    }
  }

  /**
   * The loop of `BugData.isClaimed` from a state where `seen` holds the users
   * met so far: it claims exactly when some user not in `seen` has a first
   * designation with key I_WILL_FIX.
   */
  function ClaimedFrom(ds: seq<Designation>, seen: set<Option<string>>): (r: bool)
    ensures r <==> exists i :: 0 <= i < |ds| && ds[i].key == I_WILL_FIX && ds[i].user !in seen && FirstOfItsUser(ds, i)
  {
    if ds == [] then false
    else
      FirstClaimShift(ds, seen);
      (ds[0].user !in seen && ds[0].key == I_WILL_FIX) || ClaimedFrom(ds[1..], seen + {ds[0].user})
  }

  /**
   * `BugData.isClaimed`: a finding is claimed iff, for some user, the first
   * designation of that user in set order has key I_WILL_FIX; later
   * designations of a user are never consulted.
   */
  function IsClaimed(ds: seq<Designation>): (r: bool)
    ensures r <==> exists i :: 0 <= i < |ds| && ds[i].key == I_WILL_FIX && FirstOfItsUser(ds, i)
  {
    ClaimedFrom(ds, {})
  }

  /**
   * Inserting an I_WILL_FIX designation at a position before which its user
   * has no designation makes the finding claimed.
   */
  lemma ClaimAfterInsert(ds: seq<Designation>, d: Designation, k: nat)
    requires k <= |ds| && d.key == I_WILL_FIX
    requires forall j :: 0 <= j < k ==> ds[j].user != d.user
    ensures IsClaimed(ds[..k] + [d] + ds[k..])
  {
    var ds' := ds[..k] + [d] + ds[k..];
    assert ds'[k] == d;
    assert FirstOfItsUser(ds', k);
  }

  // ---------------------------------------------------------------- visibility

  /** `BugData.canSeeCommentsByOthers`. */
  function CanSeeCommentsByOthers(mode: Mode, ds: seq<Designation>, user: string): (r: bool)
    ensures mode == SECRET ==> !r
    ensures mode == COMMUNAL ==> r
    ensures mode == VOTING ==> (r <==> exists i :: 0 <= i < |ds| && ds[i].user == Some(user))
  {
    match mode
    case SECRET => false
    case COMMUNAL => true
    case VOTING => HasVoted(ds, user)
  }

  /**
   * The filter of `getCloudReport`: designation number `i` is listed when it
   * is not the primary designation (compared by identity in Java, so by
   * position here) and the viewer may see others' comments or wrote it.
   */
  predicate Listed(d: Designation, i: int, primary: Option<nat>, canSee: bool, user: string)
  {
    primary != Some(i) && (canSee || d.user == Some(user))
  }

  /** The designations `getCloudReport` prints, in set order. */
  function ReportEntries(ds: seq<Designation>, primary: Option<nat>, canSee: bool, user: string): (r: seq<Designation>)
    ensures |r| <= |ds|
    ensures forall d :: d in r ==> canSee || d.user == Some(user)
    ensures forall i :: 0 <= i < |ds| && Listed(ds[i], i, primary, canSee, user) ==> ds[i] in r
    ensures forall d :: d in r ==> exists i :: 0 <= i < |ds| && ds[i] == d && Listed(d, i, primary, canSee, user)
  {
    if ds == [] then []
    else
      var n := |ds| - 1;
      var front := ds[..n];
      var r0 := ReportEntries(front, primary, canSee, user);
      assert forall i :: 0 <= i < n ==> ds[i] == front[i];
      r0 + (if Listed(ds[n], n, primary, canSee, user) then [ds[n]] else [])
  }

  /**
   * VOTING mode: a viewer who has not voted is shown no evaluation at all in
   * the cloud report (their own list is empty and others are hidden).
   */
  lemma VotingHidesAllUntilVoted(ds: seq<Designation>, primary: Option<nat>, user: string)
    requires !HasVoted(ds, user)
    ensures ReportEntries(ds, primary, CanSeeCommentsByOthers(VOTING, ds, user), user) == []
  {
    NothingOwnNothingListed(ds, primary, user);
  }

  /** A viewer who may not see others and wrote nothing is listed nothing. */
  lemma {:induction false} NothingOwnNothingListed(ds: seq<Designation>, primary: Option<nat>, user: string)
    requires forall i :: 0 <= i < |ds| ==> ds[i].user != Some(user)
    ensures ReportEntries(ds, primary, false, user) == []
  {
    if ds != [] {
      NothingOwnNothingListed(ds[..|ds| - 1], primary, user);
    }
  }

  /**
   * VOTING mode: once the viewer has voted, every designation except the
   * primary one is listed, whoever wrote it.
   */
  lemma VotingShowsAllOnceVoted(ds: seq<Designation>, primary: Option<nat>, user: string, i: nat)
    requires HasVoted(ds, user)
    requires i < |ds| && primary != Some(i)
    ensures ds[i] in ReportEntries(ds, primary, CanSeeCommentsByOthers(VOTING, ds, user), user)
  {
  }

  /** SECRET mode: only the viewer's own designations are ever listed. */
  lemma SecretListsOnlyOwn(ds: seq<Designation>, primary: Option<nat>, user: string)
    ensures forall d :: d in ReportEntries(ds, primary, CanSeeCommentsByOthers(SECRET, ds, user), user) ==> d.user == Some(user)
  {
  }

  // ---------------------------------------------------------------- set insertion

  /**
   * Where `TreeSet.add` puts `d` in `ds` (sorted by `cmp`, the abstract
   * `BugDesignation.compareTo`): None when an element compares equal, so the
   * set is left as it is; otherwise the index of the first larger element.
   */
  function InsertPosition(ds: seq<Designation>, d: Designation, cmp: (Designation, Designation) -> int): (r: Option<nat>)
    ensures r.None? ==> exists j :: 0 <= j < |ds| && cmp(d, ds[j]) == 0
    ensures r.Some? ==> r.value <= |ds|
    ensures r.Some? ==> forall j :: 0 <= j < r.value ==> cmp(d, ds[j]) > 0
    ensures r.Some? && r.value < |ds| ==> cmp(d, ds[r.value]) < 0
  {
    if ds == [] then Some(0)
    else
      var c := cmp(d, ds[0]);
      if c == 0 then None
      else if c < 0 then Some(0)
      else
        match InsertPosition(ds[1..], d, cmp)
        case None =>
          assert exists j :: 0 <= j < |ds| && cmp(d, ds[j]) == 0 by {
            var j :| 0 <= j < |ds[1..]| && cmp(d, ds[1..][j]) == 0;
            assert cmp(d, ds[j + 1]) == 0;
          }
          None
        case Some(k) =>
          assert forall j :: 1 <= j < k + 1 ==> ds[j] == ds[1..][j - 1];
          Some(k + 1)
  }

  /** `ds` with `e` stored where `InsertPosition` places `d`. */
  function StoreAt(ds: seq<Designation>, pos: Option<nat>, e: Designation): (r: seq<Designation>)
    requires pos.Some? ==> pos.value <= |ds|
    ensures pos.None? ==> r == ds
    ensures pos.Some? ==> |r| == |ds| + 1 && r[pos.value] == e && multiset(r) == multiset(ds) + multiset{e}
    ensures pos.Some? ==> forall i :: 0 <= i < pos.value ==> r[i] == ds[i]
    ensures pos.Some? ==> forall i :: pos.value < i < |r| ==> r[i] == ds[i - 1]
  {
    match pos
    case None => ds
    case Some(k) =>
      Splice(ds, k, e);
      ds[..k] + [e] + ds[k..]
  }

  /** `e` spliced into `ds` before index `k`. */
  lemma Splice(ds: seq<Designation>, k: nat, e: Designation)
    requires k <= |ds|
    ensures var r := ds[..k] + [e] + ds[k..];
      && |r| == |ds| + 1 && r[k] == e && multiset(r) == multiset(ds) + multiset{e}
      && (forall i :: 0 <= i < k ==> r[i] == ds[i])
      && (forall i :: k < i < |r| ==> r[i] == ds[i - 1])
  {
    var r := ds[..k] + [e] + ds[k..];
    assert ds == ds[..k] + ds[k..];
    assert forall i :: k < i < |r| ==> r[i] == ds[k..][i - k - 1] == ds[i - 1];
  }

  /** `TreeSet.add(d)` on a set sorted by `cmp`. */
  function Insert(ds: seq<Designation>, d: Designation, cmp: (Designation, Designation) -> int): (r: seq<Designation>)
    ensures r == ds || (|r| == |ds| + 1 && d in r)
    ensures multiset(r) == multiset(ds) || multiset(r) == multiset(ds) + multiset{d}
    ensures (forall j :: 0 <= j < |ds| ==> cmp(d, ds[j]) != 0) ==> |r| == |ds| + 1 && d in r
  {
    StoreAt(ds, InsertPosition(ds, d, cmp), d)
  }

  /**
   * `cmp` keeps the `Comparator` contract a `TreeSet` relies on: swapping
   * the arguments flips the sign, and "smaller than" is transitive.
   */
  ghost predicate IsComparator(cmp: (Designation, Designation) -> int)
  {
    && (forall x, y :: cmp(x, y) < 0 <==> cmp(y, x) > 0)
    && (forall x, y, z :: cmp(x, y) < 0 && cmp(y, z) < 0 ==> cmp(x, z) < 0)
  }

  /** `ds` is a `TreeSet`'s contents in iteration order: strictly ascending by `cmp`. */
  ghost predicate SortedBy(ds: seq<Designation>, cmp: (Designation, Designation) -> int)
  {
    forall i, j :: 0 <= i < j < |ds| ==> cmp(ds[i], ds[j]) < 0
  }

  /**
   * In a sorted set, the place `InsertPosition` finds for `d` is one where
   * nothing compares equal to `d`: every element from the place on is larger.
   */
  lemma PlacedMeansAbsent(ds: seq<Designation>, d: Designation, cmp: (Designation, Designation) -> int)
    requires IsComparator(cmp) && SortedBy(ds, cmp)
    requires InsertPosition(ds, d, cmp).Some?
    ensures forall j :: InsertPosition(ds, d, cmp).value <= j < |ds| ==> cmp(d, ds[j]) < 0
    ensures forall j :: 0 <= j < |ds| ==> cmp(d, ds[j]) != 0
  {
    var k := InsertPosition(ds, d, cmp).value;
    forall j | k < j < |ds|
      ensures cmp(d, ds[j]) < 0
    {
      assert cmp(d, ds[k]) < 0 && cmp(ds[k], ds[j]) < 0;
    }
  }

  /**
   * `TreeSet.add` on a sorted set: the set is unchanged exactly when an
   * element compares equal to `d`, and it stays sorted.
   */
  lemma InsertKeepsSorted(ds: seq<Designation>, d: Designation, cmp: (Designation, Designation) -> int)
    requires IsComparator(cmp) && SortedBy(ds, cmp)
    ensures Insert(ds, d, cmp) == ds <==> exists j :: 0 <= j < |ds| && cmp(d, ds[j]) == 0
    ensures SortedBy(Insert(ds, d, cmp), cmp)
  {
    var pos := InsertPosition(ds, d, cmp);
    if pos.Some? {
      PlacedMeansAbsent(ds, d, cmp);
      var k := pos.value;
      var r := Insert(ds, d, cmp);
      assert |r| != |ds|;
      forall i, j | 0 <= i < j < |r|
        ensures cmp(r[i], r[j]) < 0
      {
        if j == k {
          assert cmp(d, ds[i]) > 0;
        } else if i != k && j > k {
          assert r[j] == ds[j - 1];
          if i < k {
            assert cmp(ds[i], ds[j - 1]) < 0;
          } else {
            assert cmp(ds[i - 1], ds[j - 1]) < 0;
          }
        }
      }
    }
  }
}

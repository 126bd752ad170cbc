/**
 * `DBCloud`'s in-memory side: the records it keeps per finding, the maps from
 * content hash and database id to records, the write-behind queue of updates
 * and the sequential step of the synchronisation worker, the filing and
 * annotation operations that feed the queue, the status line, and the
 * reconciliation pass that merges a freshly loaded bug collection with the
 * database rows.
 *
 * The database itself is not modelled: its rows and generated keys are
 * parameters, and a failing connection is a boolean. The clock is a `now`
 * parameter. The worker thread is modelled as one step at a time.
 */
module Store {
  import opened JavaLong
  import opened Designations
  import opened Filing
  import opened Components

  /** Timestamps earlier than this (September 2001) are reported as bogus, not stored. */
  const MINIMUM_TIMESTAMP: long := 1000000000000

  /** Two minutes, the age at which `getStatusMsg` treats an error message differently. */
  const ERROR_DISPLAY_TIME: long := 2 * 60 * 1000

  /**
   * The parts of a `BugInstance` the cloud reads: its content hash, its bug
   * pattern's category, whether it is dead, and the timestamp of the
   * version in which it was first seen.
   */
  datatype BugInstance = BugInstance(instanceHash: string, category: string, dead: bool, firstVersionTime: long)

  /** `skipBug`: NOISE findings and dead findings are not synchronised. */
  predicate Skipped(b: BugInstance)
  {
    b.category == "NOISE" || b.dead
  }

  /** `BugData`: what the cloud knows about the finding with one content hash. */
  class BugData {
    const instanceHash: string
    var id: int
    var inDatabase: bool
    var firstSeen: long
    var bugLink: Option<string>
    var filedBy: Option<string>
    var bugFiled: long
    var designations: seq<Designation>
    /** A `LinkedHashSet`: insertion order, no element twice. */
    var bugs: seq<BugInstance>

    /** A record as Java creates it: every field at its default. */
    constructor (instanceHash: string)
      ensures this.instanceHash == instanceHash
      ensures id == 0 && !inDatabase && firstSeen == 0 && bugFiled == 0
      ensures bugLink.None? && filedBy.None?
      ensures designations == [] && bugs == []
    {
      this.instanceHash := instanceHash;
      id := 0;
      inDatabase := false;
      firstSeen := 0;
      bugLink := None;
      filedBy := None;
      bugFiled := 0;
      designations := [];
      bugs := [];
    }

    /** The fields `loadDatabaseInfo` writes, as one value. */
    function IssueInfo(): (f: IssueFields)
      reads this`id, this`firstSeen, this`inDatabase, this`bugLink, this`bugFiled, this`filedBy
    {
      IssueFields(id, firstSeen, inDatabase, bugLink, bugFiled, filedBy)
    }
  }

  /** A record's id, first-seen time, database flag, bug link, filing time and filer. */
  datatype IssueFields = IssueFields(id: int, firstSeen: long, inDatabase: bool, bugLink: Option<string>,
                                     bugFiled: long, filedBy: Option<string>)

  /** The `Update` implementations the queue holds. */
  datatype Update =
    | StoreNewBug(bug: BugInstance)
    | StoreFirstSeen(record: BugData)
    | StoreUserAnnotation(record: BugData, designation: Designation)
    | FileBug(record: BugData)

  /**
   * The state of `DatabaseSyncTask`: how many updates it has executed, and
   * whether it holds an open connection.
   */
  class SyncTask {
    var handled: nat
    var connected: bool

    constructor ()
      ensures handled == 0 && !connected
    {
      handled := 0;
      connected := false;
    }

    /**
     * `establishConnection`: an open connection is kept; otherwise one is
     * opened, which succeeds when the database is `available`.
     */
    method EstablishConnection(available: bool) returns (ok: bool)
      modifies this`connected
      ensures ok <==> old(connected) || available
      ensures connected == ok
    {
      if connected {
        return true;
      }
      connected := available;
      ok := available;
    }

    /** `closeConnection`: closes an open connection; closing twice is harmless. */
    method CloseConnection()
      modifies this`connected
      ensures !connected
    {
      if !connected {
        return;
      }
      connected := false;
    }
  }

  /** The counts `getStatusMsg0` reports: updates handled and updates waiting. */
  datatype SyncStatus = SyncStatus(handled: int, remaining: nat)

  /** `getStatusMsg`: an error message, if one is shown, before the counts. */
  datatype StatusLine = StatusLine(error: Option<string>, counts: SyncStatus)

  /** The outcome of `getBugLink`: no link, a link to a filed bug, or a bug-entry link. */
  datatype BugLink = NoLink | ViewLink(bugNumber: string) | EntryLink(choice: LinkChoice)

  /**
   * `newEvaluation`'s defaults for a designation about to be written: a null
   * user becomes `user` and null text becomes "".
   */
  function WithDefaults(d: Designation, user: string): (r: Designation)
    ensures r.key == d.key && r.timestamp == d.timestamp
    ensures r.user.Some? && r.text.Some?
    ensures d.user.Some? ==> r.user == d.user
    ensures d.text.Some? ==> r.text == d.text
    ensures d.user.None? ==> r.user == Some(user)
    ensures d.text.None? ==> r.text == Some("")
  {
    Designation(d.key, d.timestamp,
      if d.text.None? then Some("") else d.text,
      if d.user.None? then Some(user) else d.user)
  }

  /**
   * The designations of a record in the database after `newEvaluation`: the
   * set is searched for `d` as given, and on a miss `d` with its defaults
   * filled in is stored at that place.
   */
  function Evaluated(ds: seq<Designation>, d: Designation, user: string, cmp: (Designation, Designation) -> int): (r: seq<Designation>)
    ensures r == ds || (|r| == |ds| + 1 && WithDefaults(d, user) in r)
    ensures multiset(ds) <= multiset(r)
    ensures forall e :: e in r ==> e in ds || e == WithDefaults(d, user)
    ensures (forall j :: 0 <= j < |ds| ==> cmp(d, ds[j]) != 0) ==> |r| == |ds| + 1 && WithDefaults(d, user) in r
  {
    var pos := InsertPosition(ds, d, cmp);
    var r := StoreAt(ds, pos, WithDefaults(d, user));
    assert forall e :: e in r ==> e in multiset(r);
    r
  }

  /**
   * On a sorted set the worker's evaluation is dropped exactly when some
   * element compares equal to `d` as given (the defaults are filled in only
   * after the search).
   */
  lemma EvaluatedDropsOnlyDuplicates(ds: seq<Designation>, d: Designation, user: string, cmp: (Designation, Designation) -> int)
    requires IsComparator(cmp) && SortedBy(ds, cmp)
    ensures Evaluated(ds, d, user, cmp) == ds <==> exists j :: 0 <= j < |ds| && cmp(d, ds[j]) == 0
  {
    if InsertPosition(ds, d, cmp).Some? {
      PlacedMeansAbsent(ds, d, cmp);
    }
  }

  /** A designation stored by the worker always names a user and has text. */
  lemma EvaluatedKeepsAttribution(ds: seq<Designation>, d: Designation, user: string, cmp: (Designation, Designation) -> int)
    requires forall i :: 0 <= i < |ds| ==> ds[i].user.Some? && ds[i].text.Some?
    ensures var r := Evaluated(ds, d, user, cmp);
      forall i :: 0 <= i < |r| ==> r[i].user.Some? && r[i].text.Some?
  {
    var r := Evaluated(ds, d, user, cmp);
    forall i | 0 <= i < |r| ensures r[i].user.Some? && r[i].text.Some? {
      assert r[i] in r;
    }
  }

  /** `m` keeps every entry of `m0`. */
  ghost predicate Extends<K, V>(m: map<K, V>, m0: map<K, V>)
  {
    forall k :: k in m0 ==> k in m && m[k] == m0[k]
  }

  lemma ExtendsTransitive<K, V>(m0: map<K, V>, m1: map<K, V>, m2: map<K, V>)
    requires Extends(m1, m0) && Extends(m2, m1)
    ensures Extends(m2, m0)
  {
  }

  /** A map all of whose entries lie in `s` has all its values in `s`. */
  lemma ValuesWithin<K, V>(m: map<K, V>, s: set<V>)
    requires forall k :: k in m ==> m[k] in s
    ensures m.Values <= s
  {
    forall v | v in m.Values ensures v in s {
      var k :| k in m && m[k] == v;
    }
  }

  /** Adding a new key to a map adds its value to the map's values and keeps all others. */
  lemma ValuesAfterAdding<K, V>(m: map<K, V>, k: K, v: V)
    requires k !in m
    ensures m[k := v].Values == m.Values + {v}
  {
    var m' := m[k := v];
    forall x | x in m.Values ensures x in m'.Values {
      var j :| j in m && m[j] == x;
      assert m'[j] == x;
    }
    assert m'[k] == v;
  }

  /** The cloud: its mode and user, its records, its queue, its worker and its status. */
  class DBCloud {
    var mode: Mode
    /** The user whose evaluations this client writes, fixed at initialisation. */
    const findbugsUser: string
    /** `BugDesignation.compareTo`, the order of each record's designation set. */
    const compare: (Designation, Designation) -> int
    var instanceMap: map<string, BugData>
    var idMap: map<int, BugData>
    var queue: seq<Update>
    var issuesBulkHandled: nat
    const runner: SyncTask
    /** Whether the worker's loop is still going (it ends when the database fails). */
    var running: bool
    var errorMsg: Option<string>
    var errorTime: long
    var prefixBugComponentMapping: map<string, string>

    /**
     * Every record is filed under its own hash, every record bound to an id
     * is one of them and is in the database, and the queue only refers to
     * known records.
     */
    ghost predicate Valid()
      reads this`instanceMap, this`idMap, this`queue, idMap.Values`inDatabase
    {
      && (forall h :: h in instanceMap ==> instanceMap[h].instanceHash == h)
      && (forall id :: id in idMap ==> idMap[id] in instanceMap.Values && idMap[id].inDatabase)
      && (forall i :: 0 <= i < |queue| && !queue[i].StoreNewBug? ==> queue[i].record in instanceMap.Values)
    }

    /** A fresh cloud: no records, an empty queue, a worker that has not connected yet. */
    constructor (mode: Mode, findbugsUser: string, compare: (Designation, Designation) -> int)
      ensures Valid()
      ensures this.mode == mode && this.findbugsUser == findbugsUser && this.compare == compare
      ensures instanceMap == map[] && idMap == map[] && queue == [] && issuesBulkHandled == 0
      ensures fresh(runner) && runner.handled == 0 && !runner.connected && running
      ensures errorMsg.None? && errorTime == 0 && prefixBugComponentMapping == map[]
    {
      this.mode := mode;
      this.findbugsUser := findbugsUser;
      this.compare := compare;
      instanceMap := map[];
      idMap := map[];
      queue := [];
      issuesBulkHandled := 0;
      runner := new SyncTask();
      running := true;
      errorMsg := None;
      errorTime := 0;
      prefixBugComponentMapping := map[];
    }

    // ------------------------------------------------------------ record store

    /**
     * `getBugData(String)`: the record for `h`, created on first lookup; the
     * map gains at most the key `h` and no existing entry changes.
     */
    method GetBugData(h: string) returns (bd: BugData)
      requires Valid()
      modifies this`instanceMap
      ensures Valid()
      ensures h in instanceMap && bd == instanceMap[h] && bd.instanceHash == h
      ensures h in old(instanceMap) ==> instanceMap == old(instanceMap)
      ensures h !in old(instanceMap) ==> instanceMap == old(instanceMap)[h := bd] && fresh(bd)
      ensures h !in old(instanceMap) ==> !bd.inDatabase && bd.id == 0 && bd.designations == [] && bd.bugs == []
      ensures h !in old(instanceMap) ==> bd.bugLink.None? && bd.filedBy.None?
    {
      if h in instanceMap {
        return instanceMap[h];
      }
      bd := new BugData(h);
      ValuesAfterAdding(instanceMap, h, bd);
      instanceMap := instanceMap[h := bd];
    }

    /**
     * What a lookup through `getBugData(BugInstance)` leaves behind: a known
     * hash keeps its record and the map is unchanged; an unknown one gains a
     * fresh record with every field at its default; `b` joins the record's
     * bugs unless already there; no other record's bugs change.
     */
    twostate predicate LookedUp(b: BugInstance)
      reads this, instanceMap.Values
    {
      var h := b.instanceHash;
      && h in instanceMap
      && (h in old(instanceMap) ==>
            && instanceMap == old(instanceMap)
            && instanceMap[h].bugs == old(instanceMap[h].bugs) + (if b in old(instanceMap[h].bugs) then [] else [b]))
      && (h !in old(instanceMap) ==>
            && instanceMap == old(instanceMap)[h := instanceMap[h]]
            && fresh(instanceMap[h])
            && !instanceMap[h].inDatabase && instanceMap[h].bugLink.None? && instanceMap[h].filedBy.None?
            && instanceMap[h].designations == [] && instanceMap[h].bugs == [b])
      && forall k :: k in old(instanceMap) && k != h ==> instanceMap[k].bugs == old(instanceMap[k].bugs)
    }

    /** `getBugData(BugInstance)`: the record for `b`'s hash, with `b` added to its bugs. */
    method GetBugDataFor(b: BugInstance) returns (bd: BugData)
      requires Valid()
      modifies this`instanceMap, instanceMap.Values`bugs
      ensures Valid()
      ensures LookedUp(b) && bd == instanceMap[b.instanceHash]
    {
      bd := GetBugData(b.instanceHash);
      if b !in bd.bugs {
        bd.bugs := bd.bugs + [b];
      }
    }

    /** `getFirstSeen`. */
    method GetFirstSeen(b: BugInstance) returns (t: long)
      requires Valid()
      modifies this`instanceMap, instanceMap.Values`bugs
      ensures Valid()
      ensures LookedUp(b)
      ensures b.instanceHash in instanceMap && t == instanceMap[b.instanceHash].firstSeen
      ensures b.instanceHash in old(instanceMap) ==> t == old(instanceMap[b.instanceHash].firstSeen)
    {
      var bd := GetBugDataFor(b);
      t := bd.firstSeen;
    }

    /**
     * `loadDatabaseInfo`: binds the database row with id `id` to the record
     * of `hash`. An unknown hash and an id already bound change nothing (the
     * source only asserts that the row agrees with the record); otherwise
     * the row's values are copied, a missing filing time becomes
     * `Long.MAX_VALUE`, and the id is bound to the record.
     */
    method LoadDatabaseInfo(hash: string, id: int, firstSeen: long, bugDatabaseKey: Option<string>,
                            bugFiled: Option<long>, filedBy: Option<string>)
      requires Valid()
      modifies this`idMap, instanceMap.Values`id, instanceMap.Values`firstSeen, instanceMap.Values`inDatabase,
               instanceMap.Values`bugLink, instanceMap.Values`bugFiled, instanceMap.Values`filedBy
      ensures Valid()
      ensures hash !in instanceMap || id in old(idMap) ==> idMap == old(idMap) && unchanged(instanceMap.Values)
      ensures hash in instanceMap && id !in old(idMap) ==>
        var bd := instanceMap[hash];
        && idMap == old(idMap)[id := bd]
        && bd.id == id && bd.firstSeen == firstSeen && bd.inDatabase
        && bd.bugLink == bugDatabaseKey && bd.filedBy == filedBy
        && bd.bugFiled == (if bugFiled.Some? then bugFiled.value else LONG_MAX)
        && forall r :: r in instanceMap.Values && r != bd ==> unchanged(r)
    {
      if hash !in instanceMap {
        return;
      }
      var bd := instanceMap[hash];
      if id in idMap {
        return;
      }
      bd.id := id;
      bd.firstSeen := firstSeen;
      bd.inDatabase := true;
      bd.bugLink := bugDatabaseKey;
      if bugFiled.Some? {
        bd.bugFiled := bugFiled.value;
      } else {
        bd.bugFiled := LONG_MAX;
      }
      bd.filedBy := filedBy;
      idMap := idMap[id := bd];
    }

    // ------------------------------------------------------------ per-finding queries

    /** `getReviewers(BugInstance)`. */
    method GetReviewers(b: BugInstance) returns (r: set<string>)
      requires Valid()
      modifies this`instanceMap, instanceMap.Values`bugs
      ensures Valid()
      ensures LookedUp(b)
      ensures var ds := instanceMap[b.instanceHash].designations;
        forall u :: u in r <==> u != "" && exists i :: 0 <= i < |ds| && ds[i].user == Some(u)
    {
      var bd := GetBugDataFor(b);
      r := Reviewers(bd.designations);
    }

    /** `isClaimed(BugInstance)`. */
    method IsClaimedFor(b: BugInstance) returns (claimed: bool)
      requires Valid()
      modifies this`instanceMap, instanceMap.Values`bugs
      ensures Valid()
      ensures LookedUp(b)
      ensures var ds := instanceMap[b.instanceHash].designations;
        claimed <==> exists i :: 0 <= i < |ds| && ds[i].key == I_WILL_FIX && FirstOfItsUser(ds, i)
    {
      var bd := GetBugDataFor(b);
      claimed := IsClaimed(bd.designations);
    }

    // ------------------------------------------------------------ write-behind queue

    /** `storeNewBug`. */
    method StoreNewBug(b: BugInstance)
      requires Valid()
      modifies this`queue
      ensures Valid()
      ensures queue == old(queue) + [Update.StoreNewBug(b)]
    {
      queue := queue + [Update.StoreNewBug(b)];
    }

    /** `storeFirstSeen`. */
    method StoreFirstSeen(bd: BugData)
      requires Valid() && bd in instanceMap.Values
      modifies this`queue
      ensures Valid()
      ensures queue == old(queue) + [Update.StoreFirstSeen(bd)]
    {
      queue := queue + [Update.StoreFirstSeen(bd)];
    }

    /** `storeUserAnnotation(BugData, BugDesignation)`. */
    method StoreUserAnnotation(data: BugData, d: Designation)
      requires Valid() && data in instanceMap.Values
      modifies this`queue
      ensures Valid()
      ensures queue == old(queue) + [Update.StoreUserAnnotation(data, d)]
    {
      queue := queue + [Update.StoreUserAnnotation(data, d)];
    }

    // ------------------------------------------------------------ the worker

    /**
     * `DatabaseSyncTask.newBug`: a record not yet in the database is inserted;
     * when the database returns a key, the record takes it as its id and is
     * in the database from then on.
     */
    method NewBug(b: BugInstance, generatedKey: Option<int>)
      requires Valid()
      modifies this`instanceMap, instanceMap.Values`id, instanceMap.Values`inDatabase
      ensures Valid()
      ensures b.instanceHash in instanceMap
      ensures b.instanceHash in old(instanceMap) ==> instanceMap == old(instanceMap)
      ensures b.instanceHash !in old(instanceMap) ==> instanceMap.Keys == old(instanceMap).Keys + {b.instanceHash}
      ensures forall h :: h in old(instanceMap) ==> instanceMap[h] == old(instanceMap)[h]
      ensures var bd := instanceMap[b.instanceHash];
        && (b.instanceHash in old(instanceMap) && old(instanceMap[b.instanceHash].inDatabase) ==> unchanged(bd))
        && (!(b.instanceHash in old(instanceMap) && old(instanceMap[b.instanceHash].inDatabase)) ==>
              (bd.inDatabase <==> generatedKey.Some?)
              && (generatedKey.Some? ==> bd.id == generatedKey.value)
              && (generatedKey.None? && b.instanceHash in old(instanceMap) ==> bd.id == old(instanceMap[b.instanceHash].id))
              && (generatedKey.None? && b.instanceHash !in old(instanceMap) ==> bd.id == 0))
        && bd.designations == (if b.instanceHash in old(instanceMap) then old(instanceMap[b.instanceHash].designations) else [])
      ensures forall r :: r in old(instanceMap.Values) && r != instanceMap[b.instanceHash] ==> unchanged(r)
    {
      var bug := GetBugData(b.instanceHash);
      if bug.inDatabase {
        return;
      }
      if generatedKey.Some? {
        bug.id := generatedKey.value;
        bug.inDatabase := true;
      }
    }

    /**
     * What `StoreNewBug.execute` leaves behind for `b`: the map gains at most
     * `b`'s hash and keeps every old entry; a record already in the database
     * is unchanged; otherwise it is in the database now, with the generated
     * key as id when one came back; its designations are kept; no other
     * record changes.
     */
    twostate predicate StoredNewBug(b: BugInstance, generatedKey: Option<int>)
      reads this`instanceMap, instanceMap.Values
    {
      var h := b.instanceHash;
      && h in instanceMap && instanceMap[h].inDatabase
      && (h in old(instanceMap) ==> instanceMap == old(instanceMap))
      && (h !in old(instanceMap) ==> instanceMap.Keys == old(instanceMap).Keys + {h})
      && (forall k :: k in old(instanceMap) ==> instanceMap[k] == old(instanceMap)[k])
      && (h in old(instanceMap) && old(instanceMap[h].inDatabase) ==> unchanged(instanceMap[h]))
      && (!(h in old(instanceMap) && old(instanceMap[h].inDatabase)) && generatedKey.Some? ==>
            instanceMap[h].id == generatedKey.value)
      && instanceMap[h].designations == (if h in old(instanceMap) then old(instanceMap[h].designations) else [])
      && (forall r :: r in old(instanceMap.Values) && r != instanceMap[h] ==> r in instanceMap.Values && unchanged(r))
    }

    /**
     * `StoreNewBug.execute`: nothing for a record already in the database;
     * otherwise `newBug` runs and the record is marked as in the database
     * whether or not a key came back.
     */
    method ExecuteStoreNewBug(b: BugInstance, generatedKey: Option<int>)
      requires Valid()
      modifies this`instanceMap, instanceMap.Values`id, instanceMap.Values`inDatabase
      ensures Valid() && StoredNewBug(b, generatedKey)
    {
      var data := GetBugData(b.instanceHash);
      if data.inDatabase {
        return;
      }
      NewBug(b, generatedKey);
      data.inDatabase := true;
    }

    /**
     * `DatabaseSyncTask.newEvaluation`: nothing for a record not in the
     * database; otherwise the designation goes into the record's set, with a
     * null user replaced by the current user and null text by "".
     */
    method NewEvaluation(data: BugData, d: Designation)
      modifies data`designations
      ensures !old(data.inDatabase) ==> data.designations == old(data.designations)
      ensures old(data.inDatabase) ==> data.designations == Evaluated(old(data.designations), d, findbugsUser, compare)
    {
      if !data.inDatabase {
        return;
      }
      var pos := InsertPosition(data.designations, d, compare);
      data.designations := StoreAt(data.designations, pos, WithDefaults(d, findbugsUser));
    }

    /**
     * `Update.execute` for the updates the worker takes off the queue: an
     * insertion runs `StoreNewBug.execute`, an annotation runs
     * `newEvaluation`; first-seen and filing updates change no record.
     */
    method Execute(u: Update, generatedKey: Option<int>)
      requires Valid()
      requires !u.StoreNewBug? ==> u.record in instanceMap.Values
      modifies this`instanceMap, instanceMap.Values`id, instanceMap.Values`inDatabase, instanceMap.Values`designations
      ensures Valid() && old(instanceMap).Keys <= instanceMap.Keys
      ensures Executed(u, generatedKey)
    {
      match u {
        case StoreNewBug(b) =>
          ExecuteStoreNewBug(b, generatedKey);
        case StoreUserAnnotation(data, d) =>
          NewEvaluation(data, d);
        case StoreFirstSeen(_) =>
        case FileBug(_) =>
      }
    }

    /**
     * One turn of the loop of `DatabaseSyncTask.run`. A worker that has
     * stopped does nothing. On an empty queue the connection is closed. Else
     * the head is taken off the queue; if no connection can be had the
     * worker stops (the update is lost), otherwise the update is executed,
     * counted, and the status is published on every hundredth update and
     * when the queue runs empty.
     */
    method ProcessNext(connectionAvailable: bool, generatedKey: Option<int>) returns (published: bool)
      requires Valid()
      modifies this`queue, this`running, this`instanceMap, runner
      modifies instanceMap.Values`id, instanceMap.Values`inDatabase, instanceMap.Values`designations
      ensures Valid()
      ensures !old(running) ==>
        !published && !running && queue == old(queue) && instanceMap == old(instanceMap)
        && unchanged(runner) && unchanged(instanceMap.Values)
      ensures old(running) && old(queue) == [] ==>
        !published && running && queue == [] && instanceMap == old(instanceMap)
        && !runner.connected && runner.handled == old(runner.handled) && unchanged(instanceMap.Values)
      ensures old(instanceMap).Keys <= instanceMap.Keys
      ensures old(running) && old(queue) != [] ==> queue == old(queue)[1..]
      ensures old(running) && old(queue) != [] && !old(runner.connected) && !connectionAvailable ==>
        !published && !running && !runner.connected && runner.handled == old(runner.handled)
        && instanceMap == old(instanceMap) && unchanged(instanceMap.Values)
      ensures old(running) && old(queue) != [] && (old(runner.connected) || connectionAvailable) ==>
        && running && runner.connected && runner.handled == old(runner.handled) + 1
        && (published <==> old(runner.handled) % 100 == 0 || queue == [])
        && StatusMsg0().handled + StatusMsg0().remaining == old(StatusMsg0().handled + StatusMsg0().remaining)
        && Executed(old(queue[0]), generatedKey)
    {
      published := false;
      if !running {
        return;
      }
      if queue == [] {
        runner.CloseConnection();
        return;
      }
      published := TakeHead(connectionAvailable, generatedKey);
    }

    /**
     * What executing `u` leaves behind: for an insertion, as `StoredNewBug`;
     * for an annotation, the designation goes into its record's set when
     * that record is in the database, and nothing else changes; other
     * updates change no record.
     */
    twostate predicate Executed(u: Update, generatedKey: Option<int>)
      reads this`instanceMap, instanceMap.Values
    {
      match u
      case StoreNewBug(b) => StoredNewBug(b, generatedKey)
      case StoreUserAnnotation(data, d) =>
        && instanceMap == old(instanceMap)
        && data in instanceMap.Values
        && data.designations == (if old(data.inDatabase) then Evaluated(old(data.designations), d, findbugsUser, compare)
                                 else old(data.designations))
        && (forall r :: r in old(instanceMap.Values) && r != data ==> r in instanceMap.Values && unchanged(r))
      case _ => instanceMap == old(instanceMap) && unchanged(instanceMap.Values)
    }

    /**
     * The turn of `DatabaseSyncTask.run` once an update is waiting: it is
     * taken off the queue; without a connection the worker stops, otherwise
     * the update is executed and counted.
     */
    method TakeHead(connectionAvailable: bool, generatedKey: Option<int>) returns (published: bool)
      requires Valid() && running && queue != []
      modifies this`queue, this`running, this`instanceMap, runner
      modifies instanceMap.Values`id, instanceMap.Values`inDatabase, instanceMap.Values`designations
      ensures Valid()
      ensures old(instanceMap).Keys <= instanceMap.Keys
      ensures queue == old(queue)[1..]
      ensures !old(runner.connected) && !connectionAvailable ==>
        !published && !running && !runner.connected && runner.handled == old(runner.handled)
        && instanceMap == old(instanceMap) && unchanged(instanceMap.Values)
      ensures old(runner.connected) || connectionAvailable ==>
        && running && runner.connected && runner.handled == old(runner.handled) + 1
        && (published <==> old(runner.handled) % 100 == 0 || queue == [])
        && StatusMsg0().handled + StatusMsg0().remaining == old(StatusMsg0().handled + StatusMsg0().remaining)
        && Executed(old(queue[0]), generatedKey)
    {
      published := false;
      var u := queue[0];
      queue := queue[1..];
      var ok := runner.EstablishConnection(connectionAvailable);
      if !ok {
        running := false;
        runner.CloseConnection();
        return;
      }
      published := RunUpdate(u, generatedKey);
    }

    /**
     * The worker, connected, executes `u` and counts it; the status is
     * published on every hundredth update and when the queue is empty.
     */
    method RunUpdate(u: Update, generatedKey: Option<int>) returns (published: bool)
      requires Valid() && (!u.StoreNewBug? ==> u.record in instanceMap.Values)
      modifies this`instanceMap, runner`handled
      modifies instanceMap.Values`id, instanceMap.Values`inDatabase, instanceMap.Values`designations
      ensures Valid() && old(instanceMap).Keys <= instanceMap.Keys
      ensures runner.handled == old(runner.handled) + 1
      ensures published <==> old(runner.handled) % 100 == 0 || queue == []
      ensures Executed(u, generatedKey)
    {
      Execute(u, generatedKey);
      published := runner.handled % 100 == 0 || queue == [];
      runner.handled := runner.handled + 1;
    }

    // ------------------------------------------------------------ filing

    /**
     * `bugAlreadyFiled`: illegal for a finding whose record is not in the
     * database (a record looked up for the first time never is); otherwise
     * whether its link is a real one.
     */
    method BugAlreadyFiled(b: BugInstance) returns (r: Checked<bool>)
      requires Valid()
      modifies this`instanceMap
      ensures Valid()
      ensures b.instanceHash in instanceMap
      ensures b.instanceHash in old(instanceMap) ==> instanceMap == old(instanceMap)
      ensures b.instanceHash !in old(instanceMap) ==>
        && instanceMap == old(instanceMap)[b.instanceHash := instanceMap[b.instanceHash]]
        && fresh(instanceMap[b.instanceHash]) && !instanceMap[b.instanceHash].inDatabase
      ensures b.instanceHash !in old(instanceMap) ==> r.IllegalArgument?
      ensures var bd := instanceMap[b.instanceHash];
        r == AlreadyFiled(bd.inDatabase, bd.bugLink)
    {
      var bd := GetBugData(b.instanceHash);
      r := AlreadyFiled(bd.inDatabase, bd.bugLink);
    }

    /**
     * The `FileBug` constructor: illegal for a record not in the database;
     * otherwise the record is marked as pending, filed by the current user
     * at `now`, and the update that writes it is returned.
     */
    method NewFileBug(b: BugInstance, now: long) returns (r: Checked<Update>)
      requires Valid()
      modifies this`instanceMap, instanceMap.Values`bugLink, instanceMap.Values`filedBy, instanceMap.Values`bugFiled
      ensures Valid()
      ensures b.instanceHash in instanceMap
      ensures b.instanceHash in old(instanceMap) ==> instanceMap == old(instanceMap)
      ensures b.instanceHash !in old(instanceMap) ==>
        && instanceMap == old(instanceMap)[b.instanceHash := instanceMap[b.instanceHash]]
        && fresh(instanceMap[b.instanceHash]) && !instanceMap[b.instanceHash].inDatabase
      ensures b.instanceHash !in old(instanceMap) ==> r.IllegalArgument?
      ensures var bd := instanceMap[b.instanceHash];
        && (r.IllegalArgument? <==> !bd.inDatabase)
        && (r.IllegalArgument? && b.instanceHash in old(instanceMap) ==> unchanged(bd))
        && (r.Ok? ==> r.value == FileBug(bd) && bd.bugLink == Some(PENDING) && bd.filedBy == Some(findbugsUser) && bd.bugFiled == now)
      ensures forall x :: x in old(instanceMap.Values) && x != instanceMap[b.instanceHash] ==> unchanged(x)
    {
      var bd := GetBugData(b.instanceHash);
      if !bd.inDatabase {
        return IllegalArgument;
      }
      bd.bugFiled := now;
      bd.bugLink := Some(PENDING);
      bd.filedBy := Some(findbugsUser);
      r := Ok(FileBug(bd));
    }

    /**
     * `bugFiled`: illegal for a finding not in the database; a finding
     * already filed queues nothing (Ok(false)); otherwise the finding becomes
     * pending, filed by the current user at `now`, and exactly one FileBug
     * update is queued (Ok(true)), after which the filer is offered to file
     * it again at any time.
     */
    method BugFiled(b: BugInstance, now: long) returns (r: Checked<bool>)
      requires Valid()
      modifies this`instanceMap, this`queue
      modifies instanceMap.Values`bugLink, instanceMap.Values`filedBy, instanceMap.Values`bugFiled
      ensures Valid()
      ensures b.instanceHash in instanceMap
      ensures b.instanceHash in old(instanceMap) ==> instanceMap == old(instanceMap)
      ensures b.instanceHash !in old(instanceMap) ==>
        && instanceMap == old(instanceMap)[b.instanceHash := instanceMap[b.instanceHash]]
        && fresh(instanceMap[b.instanceHash]) && !instanceMap[b.instanceHash].inDatabase
      ensures b.instanceHash !in old(instanceMap) ==> r.IllegalArgument?
      ensures var bd := instanceMap[b.instanceHash];
        && (r.IllegalArgument? <==> !bd.inDatabase)
        && (r == Ok(false) <==> bd.inDatabase && AlreadyFiled(true, bd.bugLink) == Ok(true))
        && (r != Ok(true) ==> queue == old(queue))
        && (r != Ok(true) && b.instanceHash in old(instanceMap) ==> unchanged(bd))
        && (r == Ok(true) ==>
              && b.instanceHash in old(instanceMap)
              && AlreadyFiled(true, old(instanceMap[b.instanceHash].bugLink)) == Ok(false)
              && queue == old(queue) + [FileBug(bd)]
              && bd.bugLink == Some(PENDING) && bd.filedBy == Some(findbugsUser) && bd.bugFiled == now
              && forall t: long :: BugLinkStatus(bd.bugLink, bd.filedBy, bd.bugFiled, findbugsUser, t) == FILE_AGAIN)
      ensures forall x :: x in old(instanceMap.Values) && x != instanceMap[b.instanceHash] ==> unchanged(x)
    {
      var filed := BugAlreadyFiled(b);
      if filed.IllegalArgument? {
        return IllegalArgument;
      }
      if filed.value {
        return Ok(false);
      }
      var u := NewFileBug(b, now);
      queue := queue + [u.value];
      r := Ok(true);
    }

    // ------------------------------------------------------------ annotations

    /**
     * `setUserDesignation`: the current user's own designation (a copy), or a
     * new one unless `key` is UNCLASSIFIED, takes `key`; when that left it
     * dirty, it is stamped `timestamp` and queued. The record's designations
     * are never edited here.
     */
    method SetUserDesignation(b: BugInstance, key: string, timestamp: long, dirty: bool)
      requires Valid()
      modifies this`instanceMap, this`queue, instanceMap.Values`bugs
      ensures Valid()
      ensures LookedUp(b)
      ensures forall x :: x in old(instanceMap.Values) ==> x.designations == old(x.designations)
      ensures var data := instanceMap[b.instanceHash];
        var own := UserDesignation(data.designations, findbugsUser);
        && ((own.None? && key == UNCLASSIFIED) || !dirty ==> queue == old(queue))
        && (!(own.None? && key == UNCLASSIFIED) && dirty ==>
              queue == old(queue) + [Update.StoreUserAnnotation(data,
                Designation(key, timestamp, if own.Some? then own.value.text else Some(""), Some(findbugsUser)))])
    {
      var data := GetBugDataFor(b);
      var own := UserDesignation(data.designations, findbugsUser);
      if own.None? && key == UNCLASSIFIED {
        return;
      }
      // The clock reading of a new designation is overwritten before it escapes.
      var d := NonnullUserDesignation(data.designations, findbugsUser, timestamp);
      d := d.(key := key);
      if dirty {
        d := d.(timestamp := timestamp);
        StoreUserAnnotation(data, d);
      }
    }

    /**
     * `setUserEvaluation`: as `setUserDesignation`, for the annotation text;
     * an empty text creates no designation.
     */
    method SetUserEvaluation(b: BugInstance, e: string, timestamp: long, dirty: bool)
      requires Valid()
      modifies this`instanceMap, this`queue, instanceMap.Values`bugs
      ensures Valid()
      ensures LookedUp(b)
      ensures forall x :: x in old(instanceMap.Values) ==> x.designations == old(x.designations)
      ensures var data := instanceMap[b.instanceHash];
        var own := UserDesignation(data.designations, findbugsUser);
        && ((own.None? && e == "") || !dirty ==> queue == old(queue))
        && (!(own.None? && e == "") && dirty ==>
              queue == old(queue) + [Update.StoreUserAnnotation(data,
                Designation(if own.Some? then own.value.key else UNCLASSIFIED, timestamp, Some(e), Some(findbugsUser)))])
    {
      var data := GetBugDataFor(b);
      var own := UserDesignation(data.designations, findbugsUser);
      if own.None? && e == "" {
        return;
      }
      var d := NonnullUserDesignation(data.designations, findbugsUser, timestamp);
      d := d.(text := Some(e));
      if dirty {
        d := d.(timestamp := timestamp);
        StoreUserAnnotation(data, d);
      }
    }

    /**
     * `setUserTimestamp`: the current user's designation, or a new
     * UNCLASSIFIED one, is stamped `timestamp` and always queued.
     */
    method SetUserTimestamp(b: BugInstance, timestamp: long)
      requires Valid()
      modifies this`instanceMap, this`queue, instanceMap.Values`bugs
      ensures Valid()
      ensures LookedUp(b)
      ensures forall x :: x in old(instanceMap.Values) ==> x.designations == old(x.designations)
      ensures var data := instanceMap[b.instanceHash];
        var own := UserDesignation(data.designations, findbugsUser);
        queue == old(queue) + [Update.StoreUserAnnotation(data,
          if own.Some? then own.value.(timestamp := timestamp)
          else Designation(UNCLASSIFIED, timestamp, Some(""), Some(findbugsUser)))]
    {
      var data := GetBugDataFor(b);
      var d := NonnullUserDesignation(data.designations, findbugsUser, timestamp);
      d := d.(timestamp := timestamp);
      StoreUserAnnotation(data, d);
    }

    // ------------------------------------------------------------ status

    /** `getStatusMsg0`: updates handled in bulk and by the worker, and updates waiting. */
    function StatusMsg0(): (s: SyncStatus)
      reads this`issuesBulkHandled, this`queue, runner`handled
      ensures s.handled == issuesBulkHandled + runner.handled && s.handled >= issuesBulkHandled
      ensures s.remaining == |queue| && (s.remaining == 0 <==> queue == [])
    {
      SyncStatus(issuesBulkHandled + runner.handled, |queue|)
    }

    /** `setErrorMsg`. */
    method SetErrorMsg(msg: string, now: long)
      modifies this`errorMsg, this`errorTime
      ensures errorMsg == Some(msg) && errorTime == now
    {
      errorMsg := Some(msg);
      errorTime := now;
    }

    /** `clearErrorMsg`. */
    method ClearErrorMsg()
      modifies this`errorMsg
      ensures errorMsg.None?
    {
      errorMsg := None;
    }

    /**
     * `getStatusMsg`: the counts, after the error message when one is set
     * and `ErrorDropped` does not hold; when it does hold the message is
     * cleared instead.
     */
    method GetStatusMsg(now: long) returns (line: StatusLine)
      modifies this`errorMsg
      ensures line.counts == StatusMsg0()
      ensures line.error.Some? <==> old(errorMsg).Some? && !ErrorDropped(errorTime, now)
      ensures line.error.Some? ==> line.error == old(errorMsg)
      ensures errorMsg == (if old(errorMsg).Some? && ErrorDropped(errorTime, now) then None else old(errorMsg))
    {
      if errorMsg.Some? {
        if JavaLong.Add(errorTime, ERROR_DISPLAY_TIME) > now {
          errorMsg := None;
        } else {
          return StatusLine(errorMsg, StatusMsg0());
        }
      }
      return StatusLine(None, StatusMsg0());
    }

    // ------------------------------------------------------------ links and components

    /**
     * `getBugLink` for the finding `b` at time `now`: a filed bug gets a view
     * link when a view pattern is configured; a finding that may be filed
     * (again) gets a bug-entry link when an entry pattern is configured,
     * built by the ladder over the URL lengths the three reports give, and a
     * link longer than 1500 characters is reported as an error; a pending or
     * unparsable filing gets none.
     */
    method GetBugLink(b: BugInstance, now: long, viewLinkPattern: bool, bugLinkPattern: bool,
                      fullLen: nat, shorterLen: nat, abridgedLen: nat) returns (link: BugLink)
      requires Valid()
      modifies this`instanceMap, instanceMap.Values`bugs, this`errorMsg, this`errorTime
      ensures Valid()
      ensures LookedUp(b)
      ensures var bd := instanceMap[b.instanceHash];
        var status := BugLinkStatus(bd.bugLink, bd.filedBy, bd.bugFiled, findbugsUser, now);
        && (status == VIEW_BUG ==> link == (if viewLinkPattern then ViewLink(bd.bugLink.value) else NoLink))
        && (status == FILE_BUG || status == FILE_AGAIN ==>
              link == (if bugLinkPattern then EntryLink(ChooseBugLink(fullLen, shorterLen, abridgedLen)) else NoLink))
        && (status == BUG_PENDING || status == NA ==> link == NoLink)
      ensures link.EntryLink? && link.choice.warn ==>
        errorMsg == Some("Bug link length is " + NatToString(link.choice.length)) && errorTime == now
      ensures !(link.EntryLink? && link.choice.warn) ==> errorMsg == old(errorMsg) && errorTime == old(errorTime)
    {
      var bd := GetBugDataFor(b);
      var status := BugLinkStatus(bd.bugLink, bd.filedBy, bd.bugFiled, findbugsUser, now);
      match status {
        case VIEW_BUG =>
          link := if viewLinkPattern then ViewLink(bd.bugLink.value) else NoLink;
        case FILE_BUG =>
          link := EntryLinkFor(bugLinkPattern, fullLen, shorterLen, abridgedLen, now);
        case FILE_AGAIN =>
          link := EntryLinkFor(bugLinkPattern, fullLen, shorterLen, abridgedLen, now);
        case BUG_PENDING =>
          link := NoLink;
        case NA =>
          link := NoLink;
      }
    }

    /** The FILE_BUG / FILE_AGAIN branch of `getBugLink`. */
    method EntryLinkFor(bugLinkPattern: bool, fullLen: nat, shorterLen: nat, abridgedLen: nat, now: long) returns (link: BugLink)
      modifies this`errorMsg, this`errorTime
      ensures link == (if bugLinkPattern then EntryLink(ChooseBugLink(fullLen, shorterLen, abridgedLen)) else NoLink)
      ensures link.EntryLink? && link.choice.warn ==>
        errorMsg == Some("Bug link length is " + NatToString(link.choice.length)) && errorTime == now
      ensures !(link.EntryLink? && link.choice.warn) ==> errorMsg == old(errorMsg) && errorTime == old(errorTime)
    {
      if !bugLinkPattern {
        return NoLink;
      }
      var choice := ChooseBugLink(fullLen, shorterLen, abridgedLen);
      if choice.warn {
        SetErrorMsg("Bug link length is " + NatToString(choice.length), now);
      }
      link := EntryLink(choice);
    }

    /**
     * The loop of `loadBugComponents` over the lines of the properties file:
     * each non-blank line is parsed and stored, later lines overriding
     * earlier ones.
     */
    method LoadBugComponents(lines: seq<string>)
      modifies this`prefixBugComponentMapping
      ensures prefixBugComponentMapping == ComponentsAfter(old(prefixBugComponentMapping), lines)
    {
      var i := 0;
      while i < |lines|
        invariant 0 <= i <= |lines|
        invariant prefixBugComponentMapping == ComponentsAfter(old(prefixBugComponentMapping), lines[..i])
      {
        var s := lines[i];
        ComponentsAfterStep(old(prefixBugComponentMapping), lines, i);
        if !IsBlank(s) {
          var x := IndexOf(s, ' ');
          if x == -1 {
            prefixBugComponentMapping := prefixBugComponentMapping["" := s];
          } else {
            prefixBugComponentMapping := prefixBugComponentMapping[s[x + 1..] := s[..x]];
          }
        }
        i := i + 1;
      }
      assert lines[..i] == lines;
    }

    // ------------------------------------------------------------ reconciliation

    /** The hashes of the records that are in the database. */
    function InDatabaseHashes(): (r: set<string>)
      reads this`instanceMap, instanceMap.Values`inDatabase
      ensures forall h :: h in r <==> h in instanceMap && instanceMap[h].inDatabase
    {
      set h | h in instanceMap && instanceMap[h].inDatabase
    }

    /** The fields `loadDatabaseInfo` writes, of each record, by hash. */
    function IssueInfos(): (m: map<string, IssueFields>)
      reads this`instanceMap, instanceMap.Values`id, instanceMap.Values`firstSeen, instanceMap.Values`inDatabase,
            instanceMap.Values`bugLink, instanceMap.Values`bugFiled, instanceMap.Values`filedBy
      ensures m.Keys == instanceMap.Keys
      ensures forall h :: h in m ==> m[h] == instanceMap[h].IssueInfo()
    {
      map h | h in instanceMap :: instanceMap[h].IssueInfo()
    }

    /** Each record's first-seen time, by hash. */
    function FirstSeenTimes(): (r: map<string, long>)
      reads this`instanceMap, instanceMap.Values`firstSeen
      ensures r.Keys == instanceMap.Keys
      ensures forall h :: h in r ==> r[h] == instanceMap[h].firstSeen
    {
      map h | h in instanceMap :: instanceMap[h].firstSeen
    }

    /** The ids bound to the record `r`. */
    function IdsOf(r: BugData): (ids: set<int>)
      reads this`idMap
      ensures forall id :: id in ids <==> id in idMap && idMap[id] == r
    {
      set id | id in idMap && idMap[id] == r
    }

    /** Every finding among the first `n` that is not skipped sits in the record of its hash. */
    ghost predicate Attached(bugs: seq<BugInstance>, n: nat)
      reads this`instanceMap, instanceMap.Values`bugs
      requires n <= |bugs|
    {
      forall j :: 0 <= j < n && !Skipped(bugs[j]) ==>
        bugs[j].instanceHash in instanceMap && bugs[j] in instanceMap[bugs[j].instanceHash].bugs
    }

    /**
     * The records grew from `m0`: every record of `m0` is kept, and every
     * new one is out of the database and has no designations.
     */
    ghost predicate GrownFrom(m0: map<string, BugData>)
      reads this`instanceMap, instanceMap.Values`inDatabase, instanceMap.Values`designations
    {
      && Extends(instanceMap, m0)
      && forall h :: h in instanceMap && h !in m0 ==> !instanceMap[h].inDatabase && instanceMap[h].designations == []
    }

    /** One turn of the first loop of `bugsPopulated`, for the finding `bugs[i]`. */
    method AttachBug(bugs: seq<BugInstance>, i: nat)
      requires Valid()
      requires i < |bugs| && !Skipped(bugs[i]) && Attached(bugs, i)
      modifies this`instanceMap, instanceMap.Values`bugs
      ensures Valid() && Attached(bugs, i + 1)
      ensures instanceMap.Keys == old(instanceMap).Keys + {bugs[i].instanceHash}
      ensures Extends(instanceMap, old(instanceMap))
      ensures bugs[i].instanceHash !in old(instanceMap) ==>
        var bd := instanceMap[bugs[i].instanceHash];
        fresh(bd) && !bd.inDatabase && bd.designations == []
    {
      ghost var before := instanceMap;
      label Before:
      var bd := GetBugDataFor(bugs[i]);
      forall j | 0 <= j < i && !Skipped(bugs[j]) ensures bugs[j] in instanceMap[bugs[j].instanceHash].bugs {
        var x := before[bugs[j].instanceHash];
        assert x in before.Values && x == instanceMap[bugs[j].instanceHash];
        assert bugs[j] in old@Before(x.bugs);
        if x == bd {
          assert bd == before[bugs[i].instanceHash];
        }
      }
    }

    /**
     * The first loop of `bugsPopulated`: every finding that is not skipped
     * is added to the record of its hash, which is created if need be.
     */
    method AttachBugs(bugs: seq<BugInstance>)
      requires Valid()
      modifies this`instanceMap, instanceMap.Values`bugs
      ensures Valid()
      ensures instanceMap.Keys == old(instanceMap).Keys + SyncedHashes(bugs)
      ensures forall h :: h in old(instanceMap) ==> instanceMap[h] == old(instanceMap)[h]
      ensures forall h :: h in instanceMap && h !in old(instanceMap) ==>
        fresh(instanceMap[h]) && !instanceMap[h].inDatabase && instanceMap[h].designations == []
      ensures forall x :: x in instanceMap.Values ==> x in old(instanceMap.Values) || fresh(x)
      ensures InDatabaseHashes() == old(InDatabaseHashes())
      ensures Attached(bugs, |bugs|)
    {
      AttachLoop(bugs);
      assert GrownFrom(old(instanceMap));
      assert InDatabaseHashes() == old(InDatabaseHashes());
      forall x | x in instanceMap.Values ensures x in old(instanceMap.Values) || fresh(x) {
        var h :| h in instanceMap && instanceMap[h] == x;
      }
    }

    /** One turn of the first loop of `bugsPopulated`: `AttachBug` unless the finding is skipped. */
    method AttachTurn(ghost m0: map<string, BugData>, bugs: seq<BugInstance>, i: nat)
      requires Valid() && i < |bugs| && Attached(bugs, i)
      requires GrownFrom(m0) && instanceMap.Keys == m0.Keys + SyncedHashes(bugs[..i])
      modifies this`instanceMap, instanceMap.Values`bugs
      ensures Valid() && Attached(bugs, i + 1)
      ensures GrownFrom(m0) && instanceMap.Keys == m0.Keys + SyncedHashes(bugs[..i + 1])
      ensures Extends(instanceMap, old(instanceMap))
      ensures forall h :: h in instanceMap && h !in old(instanceMap) ==> fresh(instanceMap[h])
    {
      ghost var pre := instanceMap;
      if !Skipped(bugs[i]) {
        AttachBug(bugs, i);
        ExtendsTransitive(m0, pre, instanceMap);
      } else {
        assert Attached(bugs, i + 1);
      }
      SyncedHashesStep(m0.Keys, pre.Keys, instanceMap.Keys, bugs, i);
    }

    /** The first loop of `bugsPopulated`: one `AttachBug` per finding that is not skipped. */
    method AttachLoop(bugs: seq<BugInstance>)
      requires Valid()
      modifies this`instanceMap, instanceMap.Values`bugs
      ensures Valid()
      ensures instanceMap.Keys == old(instanceMap).Keys + SyncedHashes(bugs)
      ensures GrownFrom(old(instanceMap))
      ensures forall h :: h in instanceMap && h !in old(instanceMap) ==> fresh(instanceMap[h])
      ensures Attached(bugs, |bugs|)
    {
      var i := 0;
      while i < |bugs|
        invariant 0 <= i <= |bugs|
        invariant Valid() && Attached(bugs, i)
        invariant GrownFrom(old(instanceMap)) && instanceMap.Keys == old(instanceMap).Keys + SyncedHashes(bugs[..i])
        invariant forall h :: h in instanceMap && h !in old(instanceMap) ==> fresh(instanceMap[h])
      {
        AttachTurn(old(instanceMap), bugs, i);
        i := i + 1;
      }
      assert bugs[..i] == bugs;
    }

    /**
     * After the first `n` issue rows, starting from the bindings `m0`: an id
     * is bound exactly when it was already or one of those rows names it
     * with a known hash; old bindings stay, and a new one goes to the record
     * of the first such row.
     */
    ghost predicate IssuesLoaded(m0: map<int, BugData>, rows: seq<IssueRow>, n: nat)
      reads this`idMap, this`instanceMap
      requires n <= |rows|
    {
      BindingsAfter(idMap, m0, instanceMap, rows, n)
    }

    /** One turn of the loop of `bugsPopulated` over the issue rows. */
    method LoadIssue(ghost m0: map<int, BugData>, ghost info0: map<string, IssueFields>, rows: seq<IssueRow>, i: nat)
      requires Valid() && i < |rows| && IssuesLoaded(m0, rows, i)
      requires info0.Keys == instanceMap.Keys && IssueInfos() == Loaded(info0, rows, m0.Keys, i)
      modifies this`idMap, instanceMap.Values`id, instanceMap.Values`firstSeen, instanceMap.Values`inDatabase,
               instanceMap.Values`bugLink, instanceMap.Values`bugFiled, instanceMap.Values`filedBy
      ensures Valid() && IssuesLoaded(m0, rows, i + 1)
      ensures IssueInfos() == Loaded(info0, rows, m0.Keys, i + 1)
    {
      var row := rows[i];
      LoadedStep(info0, rows, m0.Keys, i);
      BindsUnbound(rows, m0.Keys, instanceMap.Keys, idMap.Keys, i);
      BindingsStep(idMap, m0, instanceMap, rows, i);
      StoreRow(row);
    }

    /**
     * `loadDatabaseInfo` for one issue row, seen through the records by
     * hash: when the row's hash is known and its id is not yet bound, the
     * id is bound to that record, which takes the row's values and is now in
     * the database; otherwise nothing changes.
     */
    method StoreRow(row: IssueRow)
      requires Valid()
      modifies this`idMap, instanceMap.Values`id, instanceMap.Values`firstSeen, instanceMap.Values`inDatabase,
               instanceMap.Values`bugLink, instanceMap.Values`bugFiled, instanceMap.Values`filedBy
      ensures Valid()
      ensures var binds := row.hash in instanceMap && row.id !in old(idMap);
        && idMap == (if binds then old(idMap)[row.id := instanceMap[row.hash]] else old(idMap))
        && IssueInfos() == (if binds then old(IssueInfos())[row.hash := RowFields(row)] else old(IssueInfos()))
    {
      ghost var infos := IssueInfos();
      LoadDatabaseInfo(row.hash, row.id, row.firstSeen, row.bugDatabaseKey, row.bugFiled, row.filedBy);
      if row.hash in instanceMap && row.id !in old(idMap) {
        forall h | h in instanceMap && h != row.hash ensures instanceMap[h] != instanceMap[row.hash] {
          assert instanceMap[h].instanceHash == h;
        }
        assert IssueInfos() == infos[row.hash := RowFields(row)];
      }
    }

    /** The loop of `bugsPopulated` over the issue rows: `loadDatabaseInfo` for each. */
    method LoadIssues(rows: seq<IssueRow>)
      requires Valid()
      modifies this`idMap, instanceMap.Values`id, instanceMap.Values`firstSeen, instanceMap.Values`inDatabase,
               instanceMap.Values`bugLink, instanceMap.Values`bugFiled, instanceMap.Values`filedBy
      ensures Valid()
      ensures IssuesLoaded(old(idMap), rows, |rows|)
      ensures idMap.Keys == old(idMap).Keys + KnownIds(rows, instanceMap.Keys)
      ensures idMap.Values <= instanceMap.Values
      ensures InDatabaseHashes() == old(InDatabaseHashes()) + BoundHashes(rows, old(idMap).Keys, instanceMap.Keys, |rows|)
      ensures IssueInfos() == Loaded(old(IssueInfos()), rows, old(idMap).Keys, |rows|)
      ensures forall h :: h in instanceMap ==>
        instanceMap[h].designations == old(instanceMap[h].designations) && instanceMap[h].bugs == old(instanceMap[h].bugs)
    {
      ghost var info0 := IssueInfos();
      IssueLoop(rows);
      LoadedInDatabase(info0, rows, old(idMap).Keys, |rows|);
      assert InDatabaseHashes() == InDb(IssueInfos());
      assert old(InDatabaseHashes()) == InDb(info0);
      assert forall id :: id in idMap ==> idMap[id] in instanceMap.Values && idMap[id].inDatabase;
      ValuesWithin(idMap, instanceMap.Values);
      BoundIds(idMap, old(idMap), instanceMap, rows);
    }

    /** The loop of `bugsPopulated` over the issue rows: it binds ids and stores values as `Loaded` describes. */
    method IssueLoop(rows: seq<IssueRow>)
      requires Valid()
      modifies this`idMap, instanceMap.Values`id, instanceMap.Values`firstSeen, instanceMap.Values`inDatabase,
               instanceMap.Values`bugLink, instanceMap.Values`bugFiled, instanceMap.Values`filedBy
      ensures Valid()
      ensures IssuesLoaded(old(idMap), rows, |rows|)
      ensures IssueInfos() == Loaded(old(IssueInfos()), rows, old(idMap).Keys, |rows|)
    {
      ghost var info0 := IssueInfos();
      var i := 0;
      while i < |rows|
        invariant 0 <= i <= |rows|
        invariant Valid() && IssuesLoaded(old(idMap), rows, i)
        invariant info0.Keys == instanceMap.Keys
        invariant IssueInfos() == Loaded(info0, rows, old(idMap).Keys, i)
      {
        LoadIssue(old(idMap), info0, rows, i);
        i := i + 1;
      }
    }

    /**
     * One turn of the loop of `bugsPopulated` over the evaluation rows: the
     * row's designation goes into the record its issue id is bound to, if any.
     */
    method LoadEvaluation(row: EvaluationRow)
      requires Valid()
      modifies idMap.Values`designations
      ensures Valid()
      ensures forall x :: x in idMap.Values ==>
        x.designations == if row.issueId in IdsOf(x) then Insert(old(x.designations), RowDesignation(row), compare) else old(x.designations)
    {
      if row.issueId in idMap {
        var data := idMap[row.issueId];
        data.designations := Insert(data.designations, RowDesignation(row), compare);
        forall x | x in idMap.Values && x != data ensures row.issueId !in IdsOf(x) {
        }
      }
    }

    /**
     * The loop of `bugsPopulated` over the evaluation rows: each row whose
     * issue id is known is turned into a designation and inserted into that
     * issue's record; rows of unknown issues are dropped.
     */
    method LoadEvaluations(rows: seq<EvaluationRow>)
      requires Valid()
      modifies idMap.Values`designations
      ensures Valid()
      ensures forall x :: x in idMap.Values ==>
        x.designations == AttachEvaluations(old(x.designations), rows, IdsOf(x), compare)
      ensures forall h :: h in instanceMap ==>
        instanceMap[h].designations ==
          AttachEvaluations(old(instanceMap[h].designations), rows, IdsOf(instanceMap[h]), compare)
      ensures IssueInfos() == old(IssueInfos()) && InDatabaseHashes() == old(InDatabaseHashes())
      ensures forall h :: h in instanceMap ==> instanceMap[h].bugs == old(instanceMap[h].bugs)
    {
      EvaluationLoop(rows);
      forall h | h in instanceMap && instanceMap[h] !in idMap.Values
        ensures instanceMap[h].designations == AttachEvaluations(old(instanceMap[h].designations), rows, IdsOf(instanceMap[h]), compare)
      {
        assert IdsOf(instanceMap[h]) == {};
        AttachEvaluationsNoIds(old(instanceMap[h].designations), rows, compare);
      }
    }

    /** The loop of `bugsPopulated` over the evaluation rows, for the records bound to an id. */
    method EvaluationLoop(rows: seq<EvaluationRow>)
      requires Valid()
      modifies idMap.Values`designations
      ensures Valid()
      ensures forall x :: x in idMap.Values ==>
        x.designations == AttachEvaluations(old(x.designations), rows, IdsOf(x), compare)
    {
      AttachNoRows(rows);
      var i := 0;
      while i < |rows|
        invariant 0 <= i <= |rows|
        invariant Valid()
        invariant forall x :: x in idMap.Values ==>
          x.designations == AttachEvaluations(old(x.designations), rows[..i], IdsOf(x), compare)
      {
        AttachStep(rows, i);
        LoadEvaluation(rows[i]);
        i := i + 1;
      }
      assert rows[..i] == rows;
    }

    /**
     * The last loop of `bugsPopulated`, over the findings that are not
     * skipped (whose records the first loop created): a finding not in the
     * database is queued for insertion; one in the database is counted, and
     * its record's first-seen time is lowered, and the change queued, when
     * the finding's own first-seen time is earlier and not below
     * `MINIMUM_TIMESTAMP`.
     */
    method ReconcileBugs(bugs: seq<BugInstance>)
      requires Valid()
      requires forall j :: 0 <= j < |bugs| && !Skipped(bugs[j]) ==> bugs[j].instanceHash in instanceMap
      modifies this`queue, this`issuesBulkHandled, instanceMap.Values`firstSeen
      ensures Valid()
      ensures |old(queue)| <= |queue| && queue[..|old(queue)|] == old(queue)
      ensures QueuedOnly(queue[|old(queue)|..], bugs, instanceMap, InDatabaseHashes())
      ensures NewBugs(queue[|old(queue)|..]) == Pending(bugs, InDatabaseHashes())
      ensures issuesBulkHandled == old(issuesBulkHandled) + CountInDb(bugs, InDatabaseHashes())
      ensures InDatabaseHashes() == old(InDatabaseHashes())
      ensures forall h :: h in instanceMap ==> instanceMap[h].designations == old(instanceMap[h].designations)
      ensures forall h :: h in instanceMap ==>
        instanceMap[h].firstSeen == old(instanceMap[h].firstSeen)
        || (instanceMap[h].inDatabase && MINIMUM_TIMESTAMP <= instanceMap[h].firstSeen < old(instanceMap[h].firstSeen))
    {
      ghost var inDb := InDatabaseHashes();
      ghost var times := FirstSeenTimes();
      ReconcileLoop(bugs);
      ReconcileQueuesOnly(bugs, instanceMap, inDb, times);
      ReconcileQueuesPending(bugs, instanceMap, inDb, times);
      ghost var s := Reconcile(bugs, instanceMap, inDb, times);
      assert queue[|old(queue)|..] == s.ops;
      forall h | h in instanceMap
        ensures instanceMap[h].firstSeen == old(instanceMap[h].firstSeen)
          || (instanceMap[h].inDatabase && MINIMUM_TIMESTAMP <= instanceMap[h].firstSeen < old(instanceMap[h].firstSeen))
      {
        ReconcileLowersFirstSeen(bugs, instanceMap, inDb, times, h);
      }
    }

    /** The last loop of `bugsPopulated`: it performs the steps `Reconcile` describes. */
    method ReconcileLoop(bugs: seq<BugInstance>)
      requires Valid()
      requires forall j :: 0 <= j < |bugs| && !Skipped(bugs[j]) ==> bugs[j].instanceHash in instanceMap
      modifies this`queue, this`issuesBulkHandled, instanceMap.Values`firstSeen
      ensures Valid()
      ensures InDatabaseHashes() == old(InDatabaseHashes())
      ensures var s := Reconcile(bugs, instanceMap, old(InDatabaseHashes()), old(FirstSeenTimes()));
        && queue == old(queue) + s.ops
        && issuesBulkHandled == old(issuesBulkHandled) + s.bulkHandled
        && FirstSeenTimes() == s.firstSeen
    {
      ghost var inDb := InDatabaseHashes();
      ghost var times := FirstSeenTimes();
      var i := 0;
      while i < |bugs|
        invariant 0 <= i <= |bugs|
        invariant Valid()
        invariant InDatabaseHashes() == inDb
        invariant var s := Reconcile(bugs[..i], instanceMap, inDb, times);
          && queue == old(queue) + s.ops
          && issuesBulkHandled == old(issuesBulkHandled) + s.bulkHandled
          && FirstSeenTimes() == s.firstSeen
      {
        assert bugs[..i + 1][..i] == bugs[..i];
        ghost var s := Reconcile(bugs[..i], instanceMap, inDb, times);
        ReconcileBug(bugs[i], s, old(queue), old(issuesBulkHandled));
        i := i + 1;
      }
      assert bugs[..i] == bugs;
    }

    /** One turn of the last loop of `bugsPopulated`, for the finding `b`. */
    method ReconcileBug(b: BugInstance, ghost s: Sweep, ghost queue0: seq<Update>, ghost handled0: nat)
      requires Valid()
      requires !Skipped(b) ==> b.instanceHash in instanceMap
      requires queue == queue0 + s.ops && issuesBulkHandled == handled0 + s.bulkHandled
      requires FirstSeenTimes() == s.firstSeen
      modifies this`queue, this`issuesBulkHandled, instanceMap.Values`firstSeen
      ensures Valid()
      ensures InDatabaseHashes() == old(InDatabaseHashes())
      ensures var s' := ReconcileStep(s, b, instanceMap, old(InDatabaseHashes()));
        && queue == queue0 + s'.ops
        && issuesBulkHandled == handled0 + s'.bulkHandled
        && FirstSeenTimes() == s'.firstSeen
    {
      if Skipped(b) {
        return;
      }
      var h := b.instanceHash;
      var bd := instanceMap[h];
      if !bd.inDatabase {
        StoreNewBug(b);
        return;
      }
      issuesBulkHandled := issuesBulkHandled + 1;
      var firstSeen := b.firstVersionTime;
      if firstSeen < MINIMUM_TIMESTAMP {
        // reported to the user as a bogus timestamp; nothing is stored
      } else if firstSeen < bd.firstSeen {
        LowerFirstSeen(h, bd, firstSeen);
      }
    }

    /** The record of `h` takes the earlier first-seen time `t`, and the change is queued. */
    method LowerFirstSeen(h: string, bd: BugData, t: long)
      requires Valid() && h in instanceMap && instanceMap[h] == bd
      modifies this`queue, bd`firstSeen
      ensures Valid()
      ensures InDatabaseHashes() == old(InDatabaseHashes())
      ensures FirstSeenTimes() == old(FirstSeenTimes())[h := t]
      ensures queue == old(queue) + [Update.StoreFirstSeen(bd)]
    {
      ghost var before := FirstSeenTimes();
      bd.firstSeen := t;
      forall k | k in instanceMap && k != h ensures instanceMap[k] != bd {
        assert instanceMap[k].instanceHash == k;
      }
      assert FirstSeenTimes() == before[h := t];
      StoreFirstSeen(bd);
    }

    /**
     * The part of `bugsPopulated` that needs the database: load the issue
     * rows and the evaluation rows, then reconcile the findings with them.
     * Exactly one insertion is queued per finding not skipped and not in the
     * database, in order, besides first-seen updates of records in it.
     */
    method SyncWithDatabase(bugs: seq<BugInstance>, issues: seq<IssueRow>, evaluations: seq<EvaluationRow>)
      requires Valid() && Attached(bugs, |bugs|)
      modifies this`idMap, this`queue, this`issuesBulkHandled, instanceMap.Values
      ensures Valid() && Attached(bugs, |bugs|)
      ensures |old(queue)| <= |queue| && queue[..|old(queue)|] == old(queue)
      ensures QueuedOnly(queue[|old(queue)|..], bugs, instanceMap, InDatabaseHashes())
      ensures IssuesLoaded(old(idMap), issues, |issues|)
      ensures idMap.Keys == old(idMap).Keys + KnownIds(issues, instanceMap.Keys)
      ensures InDatabaseHashes() == old(InDatabaseHashes()) + BoundHashes(issues, old(idMap).Keys, instanceMap.Keys, |issues|)
      ensures NewBugs(queue[|old(queue)|..]) ==
        Pending(bugs, old(InDatabaseHashes()) + BoundHashes(issues, old(idMap).Keys, instanceMap.Keys, |issues|))
      ensures issuesBulkHandled ==
        old(issuesBulkHandled) + CountInDb(bugs, old(InDatabaseHashes()) + BoundHashes(issues, old(idMap).Keys, instanceMap.Keys, |issues|))
      ensures forall h :: h in instanceMap ==>
        instanceMap[h].designations ==
          AttachEvaluations(old(instanceMap[h].designations), evaluations, IdsOf(instanceMap[h]), compare)
    {
      LoadRows(bugs, issues, evaluations);
      ReconcileBugs(bugs);
    }

    /** The issue rows and then the evaluation rows are loaded into the records. */
    method LoadRows(bugs: seq<BugInstance>, issues: seq<IssueRow>, evaluations: seq<EvaluationRow>)
      requires Valid() && Attached(bugs, |bugs|)
      modifies this`idMap, instanceMap.Values`id, instanceMap.Values`firstSeen, instanceMap.Values`inDatabase,
        instanceMap.Values`bugLink, instanceMap.Values`bugFiled, instanceMap.Values`filedBy, instanceMap.Values`designations
      ensures Valid() && Attached(bugs, |bugs|)
      ensures IssuesLoaded(old(idMap), issues, |issues|)
      ensures idMap.Keys == old(idMap).Keys + KnownIds(issues, instanceMap.Keys)
      ensures InDatabaseHashes() == old(InDatabaseHashes()) + BoundHashes(issues, old(idMap).Keys, instanceMap.Keys, |issues|)
      ensures IssueInfos() == Loaded(old(IssueInfos()), issues, old(idMap).Keys, |issues|)
      ensures forall h :: h in instanceMap ==>
        instanceMap[h].designations ==
          AttachEvaluations(old(instanceMap[h].designations), evaluations, IdsOf(instanceMap[h]), compare)
    {
      LoadIssues(issues);
      LoadEvaluations(evaluations);
    }

    /**
     * `bugsPopulated`: attach the findings to their records; then, when the
     * database can be reached, load the issue rows and the evaluation rows
     * and reconcile the findings with what was loaded.
     */
    method BugsPopulated(bugs: seq<BugInstance>, issues: seq<IssueRow>, evaluations: seq<EvaluationRow>, connected: bool)
      requires Valid()
      modifies this`instanceMap, this`idMap, this`queue, this`issuesBulkHandled, instanceMap.Values
      ensures Valid() && Attached(bugs, |bugs|)
      ensures !connected ==> queue == old(queue) && idMap == old(idMap)
      ensures |old(queue)| <= |queue| && queue[..|old(queue)|] == old(queue)
      ensures instanceMap.Keys == old(instanceMap).Keys + SyncedHashes(bugs)
      ensures !connected ==> InDatabaseHashes() == old(InDatabaseHashes()) && issuesBulkHandled == old(issuesBulkHandled)
      ensures !connected ==>
        forall h :: h in old(instanceMap) ==>
          && instanceMap[h] == old(instanceMap)[h]
          && instanceMap[h].IssueInfo() == old(instanceMap[h].IssueInfo())
          && instanceMap[h].designations == old(instanceMap[h].designations)
      ensures connected ==> QueuedOnly(queue[|old(queue)|..], bugs, instanceMap, InDatabaseHashes())
      ensures connected ==> IssuesLoaded(old(idMap), issues, |issues|)
      ensures connected ==> idMap.Keys == old(idMap).Keys + KnownIds(issues, instanceMap.Keys)
      ensures connected ==>
        InDatabaseHashes() == old(InDatabaseHashes()) + BoundHashes(issues, old(idMap).Keys, instanceMap.Keys, |issues|)
      ensures connected ==>
        NewBugs(queue[|old(queue)|..]) ==
          Pending(bugs, old(InDatabaseHashes()) + BoundHashes(issues, old(idMap).Keys, instanceMap.Keys, |issues|))
      ensures connected ==>
        issuesBulkHandled ==
          old(issuesBulkHandled)
          + CountInDb(bugs, old(InDatabaseHashes()) + BoundHashes(issues, old(idMap).Keys, instanceMap.Keys, |issues|))
      ensures connected ==>
        forall h :: h in instanceMap ==>
          instanceMap[h].designations ==
            AttachEvaluations(if h in old(instanceMap) then old(instanceMap[h].designations) else [],
                              evaluations, IdsOf(instanceMap[h]), compare)
    {
      AttachBugs(bugs);
      if !connected {
        return;
      }
      SyncWithDatabase(bugs, issues, evaluations);
    }
  }

  /**
   * The test of `getStatusMsg`: an error set at `errorTime` is dropped when
   * `errorTime` plus two minutes, in `long` arithmetic, is after `now`.
   */
  predicate ErrorDropped(errorTime: long, now: long)
  {
    JavaLong.Add(errorTime, ERROR_DISPLAY_TIME) > now
  }

  /**
   * An error younger than two minutes is cleared without ever being shown
   * (unless adding two minutes to its time overflows a `long`).
   */
  lemma FreshErrorIsDropped(errorTime: long, now: long)
    requires errorTime <= now < errorTime + ERROR_DISPLAY_TIME <= LONG_MAX
    ensures ErrorDropped(errorTime, now)
  {
  }

  /** An error two minutes old or older is shown, and stays shown until cleared. */
  lemma OldErrorIsShown(errorTime: long, now: long, later: long)
    requires errorTime + ERROR_DISPLAY_TIME <= now <= later
    ensures !ErrorDropped(errorTime, now) && !ErrorDropped(errorTime, later)
  {
  }

  // ---------------------------------------------------------------- reconciliation specification

  /** The hashes of the findings of `bugs` that are not skipped. */
  function SyncedHashes(bugs: seq<BugInstance>): (hs: set<string>)
  {
    if bugs == [] then {}
    else
      var n := |bugs| - 1;
      SyncedHashes(bugs[..n]) + (if Skipped(bugs[n]) then {} else {bugs[n].instanceHash})
  }

  /** The keys after one more turn of the first loop of `bugsPopulated`. */
  lemma SyncedHashesStep(k0: set<string>, k1: set<string>, k2: set<string>, bugs: seq<BugInstance>, i: nat)
    requires i < |bugs|
    requires k1 == k0 + SyncedHashes(bugs[..i])
    requires k2 == k1 + (if Skipped(bugs[i]) then {} else {bugs[i].instanceHash})
    ensures k2 == k0 + SyncedHashes(bugs[..i + 1])
  {
    assert bugs[..i + 1][..i] == bugs[..i];
  }

  /** A row of `findbugs_issue` as the bulk load reads it. */
  datatype IssueRow = IssueRow(id: int, hash: string, firstSeen: long, bugDatabaseKey: Option<string>,
                               bugFiled: Option<long>, filedBy: Option<string>)

  /** A row of `findbugs_evaluation`. */
  datatype EvaluationRow = EvaluationRow(id: int, issueId: int, who: Option<string>, designation: string,
                                         comment: Option<string>, when: long)

  /** Row `j` is the first of `rows` with id `id` and a hash in `known`: the row that binds `id`. */
  ghost predicate FirstBinding(rows: seq<IssueRow>, known: set<string>, id: int, j: int)
  {
    && 0 <= j < |rows| && rows[j].id == id && rows[j].hash in known
    && forall k :: 0 <= k < j ==> !(rows[k].id == id && rows[k].hash in known)
  }

  /**
   * Row `j` binds a new id: the id was not bound before the rows were read,
   * and `j` is the first row naming it with a known hash.
   */
  ghost predicate Binds(rows: seq<IssueRow>, ids0: set<int>, known: set<string>, j: int)
  {
    0 <= j < |rows| && rows[j].id !in ids0 && FirstBinding(rows, known, rows[j].id, j)
  }

  /**
   * The bindings `ids` after the first `n` issue rows, starting from `m0`,
   * with the records by hash `records`: an id is bound exactly when it was
   * already or one of those rows names it with a known hash; old bindings
   * stay, and a new one goes to the record of the first such row.
   */
  ghost predicate BindingsAfter(ids: map<int, BugData>, m0: map<int, BugData>, records: map<string, BugData>,
                                rows: seq<IssueRow>, n: nat)
    requires n <= |rows|
  {
    && (forall id :: id in ids <==> id in m0 || exists j :: 0 <= j < n && rows[j].id == id && rows[j].hash in records)
    && (forall id :: id in m0 ==> id in ids && ids[id] == m0[id])
    && (forall id :: id in ids && id !in m0 ==>
          exists j :: 0 <= j < n && FirstBinding(rows, records.Keys, id, j) && ids[id] == records[rows[j].hash])
  }

  /** One more issue row read: it binds its id to its record when its hash is known and the id is new. */
  lemma BindingsStep(ids: map<int, BugData>, m0: map<int, BugData>, records: map<string, BugData>,
                     rows: seq<IssueRow>, i: nat)
    requires i < |rows| && BindingsAfter(ids, m0, records, rows, i)
    ensures var row := rows[i];
      BindingsAfter(if row.hash in records && row.id !in ids then ids[row.id := records[row.hash]] else ids,
                    m0, records, rows, i + 1)
  {
    var row := rows[i];
    if row.hash in records && row.id !in ids {
      assert FirstBinding(rows, records.Keys, row.id, i);
    }
  }

  /** The ids of the issue rows whose hash is in `known`. */
  function KnownIds(rows: seq<IssueRow>, known: set<string>): (ids: set<int>)
  {
    if rows == [] then {}
    else
      var n := |rows| - 1;
      KnownIds(rows[..n], known) + (if rows[n].hash in known then {rows[n].id} else {})
  }

  /** An id is among the known ones exactly when some row with a known hash names it. */
  lemma {:induction false} KnownIdsNamed(rows: seq<IssueRow>, known: set<string>)
    ensures forall id :: id in KnownIds(rows, known) <==>
      exists j :: 0 <= j < |rows| && rows[j].id == id && rows[j].hash in known
  {
    if rows != [] {
      var n := |rows| - 1;
      KnownIdsNamed(rows[..n], known);
      forall id | exists j :: 0 <= j < |rows| && rows[j].id == id && rows[j].hash in known
        ensures id in KnownIds(rows, known)
      {
        var j :| 0 <= j < |rows| && rows[j].id == id && rows[j].hash in known;
        if j < n {
          assert rows[..n][j] == rows[j];
        }
      }
      forall id | id in KnownIds(rows[..n], known)
        ensures exists j :: 0 <= j < |rows| && rows[j].id == id && rows[j].hash in known
      {
        var j :| 0 <= j < n && rows[..n][j].id == id && rows[..n][j].hash in known;
        assert rows[j] == rows[..n][j];
      }
    }
  }

  /** Once all the rows are read, the bound ids are the old ones and those of the rows with a known hash. */
  lemma BoundIds(ids: map<int, BugData>, m0: map<int, BugData>, records: map<string, BugData>, rows: seq<IssueRow>)
    requires BindingsAfter(ids, m0, records, rows, |rows|)
    ensures ids.Keys == m0.Keys + KnownIds(rows, records.Keys)
  {
    KnownIdsNamed(rows, records.Keys);
    forall id | id in KnownIds(rows, records.Keys) ensures id in ids {
      assert exists j :: 0 <= j < |rows| && rows[j].id == id && rows[j].hash in records;
    }
    forall id | id in ids && id !in m0 ensures id in KnownIds(rows, records.Keys) {
      assert exists j :: 0 <= j < |rows| && rows[j].id == id && rows[j].hash in records;
    }
    assert forall id :: id in m0 ==> id in ids;
  }

  /**
   * When `ids` are the ids bound after the rows before `i`, row `i` binds a
   * new id exactly when its hash is known and its id is not among them.
   */
  lemma BindsUnbound(rows: seq<IssueRow>, ids0: set<int>, known: set<string>, ids: set<int>, i: nat)
    requires i < |rows|
    requires forall id :: id in ids <==> id in ids0 || exists j :: 0 <= j < i && rows[j].id == id && rows[j].hash in known
    ensures Binds(rows, ids0, known, i) <==> rows[i].hash in known && rows[i].id !in ids
  {
  }

  /** The hashes whose records the first `n` issue rows bind a new id to. */
  ghost function BoundHashes(rows: seq<IssueRow>, ids0: set<int>, known: set<string>, n: nat): (hs: set<string>)
    requires n <= |rows|
  {
    set j | 0 <= j < n && Binds(rows, ids0, known, j) :: rows[j].hash
  }

  /**
   * The last of the first `n` issue rows that binds a new id to the record
   * of `h`, or -1 when there is none: the row whose values that record
   * holds once the rows are read.
   */
  ghost function LastBinder(rows: seq<IssueRow>, ids0: set<int>, known: set<string>, h: string, n: nat): (r: int)
    requires n <= |rows|
    ensures -1 <= r < n
    ensures r >= 0 ==> Binds(rows, ids0, known, r) && rows[r].hash == h
    ensures forall k :: r < k < n ==> !(Binds(rows, ids0, known, k) && rows[k].hash == h)
  {
    if n == 0 then -1
    else if Binds(rows, ids0, known, n - 1) && rows[n - 1].hash == h then n - 1
    else LastBinder(rows, ids0, known, h, n - 1)
  }

  /** A record has a binding row exactly when its hash is among the bound ones. */
  lemma LastBinderIsBound(rows: seq<IssueRow>, ids0: set<int>, known: set<string>, h: string, n: nat)
    requires n <= |rows|
    ensures LastBinder(rows, ids0, known, h, n) >= 0 <==> h in BoundHashes(rows, ids0, known, n)
  {
    var r := LastBinder(rows, ids0, known, h, n);
    if r >= 0 {
      assert rows[r].hash in BoundHashes(rows, ids0, known, n);
    }
  }

  /**
   * The fields of every record, by hash, once the first `n` issue rows are
   * read from `info0`: a record some row binds a new id to holds the
   * values of the last such row, and every other record keeps its own.
   */
  ghost function Loaded(info0: map<string, IssueFields>, rows: seq<IssueRow>, ids0: set<int>, n: nat): (m: map<string, IssueFields>)
    requires n <= |rows|
  {
    map h | h in info0 ::
      var j := LastBinder(rows, ids0, info0.Keys, h, n);
      if j < 0 then info0[h] else RowFields(rows[j])
  }

  /** The hashes whose fields say they are in the database. */
  function InDb(infos: map<string, IssueFields>): (hs: set<string>)
  {
    set h | h in infos && infos[h].inDatabase
  }

  /**
   * Once the issue rows are read, a record is in the database exactly when
   * it was before or some row bound a new id to it.
   */
  lemma LoadedInDatabase(info0: map<string, IssueFields>, rows: seq<IssueRow>, ids0: set<int>, n: nat)
    requires n <= |rows|
    ensures InDb(Loaded(info0, rows, ids0, n)) == InDb(info0) + BoundHashes(rows, ids0, info0.Keys, n)
  {
    forall h | h in info0 {
      LastBinderIsBound(rows, ids0, info0.Keys, h, n);
    }
  }

  /** One more issue row read: the record it binds a new id to takes its values. */
  lemma LoadedStep(info0: map<string, IssueFields>, rows: seq<IssueRow>, ids0: set<int>, n: nat)
    requires n < |rows|
    ensures Loaded(info0, rows, ids0, n + 1) ==
      if Binds(rows, ids0, info0.Keys, n) then Loaded(info0, rows, ids0, n)[rows[n].hash := RowFields(rows[n])]
      else Loaded(info0, rows, ids0, n)
  {
  }

  /**
   * What `loadDatabaseInfo` stores from an issue row: its id, its first-seen
   * time, the database flag, its bug link and filer, and its filing time,
   * `Long.MAX_VALUE` when the row has none.
   */
  function RowFields(row: IssueRow): (f: IssueFields)
  {
    IssueFields(row.id, row.firstSeen, true, row.bugDatabaseKey,
                if row.bugFiled.Some? then row.bugFiled.value else LONG_MAX, row.filedBy)
  }

  /** The designation an evaluation row stands for. */
  function RowDesignation(row: EvaluationRow): (d: Designation)
  {
    Designation(row.designation, row.when, row.comment, row.who)
  }

  /**
   * A record's designations after the evaluation rows are read: each row
   * whose issue id is one of the record's `ids` is added to the set.
   */
  function AttachEvaluations(ds: seq<Designation>, rows: seq<EvaluationRow>, ids: set<int>,
                             cmp: (Designation, Designation) -> int): (r: seq<Designation>)
  {
    if rows == [] then ds
    else
      var n := |rows| - 1;
      var r0 := AttachEvaluations(ds, rows[..n], ids, cmp);
      if rows[n].issueId in ids then Insert(r0, RowDesignation(rows[n]), cmp) else r0
  }

  /** Reading evaluation rows keeps a record's designations sorted, as a `TreeSet` does. */
  lemma {:induction false} AttachEvaluationsKeepsSorted(ds: seq<Designation>, rows: seq<EvaluationRow>, ids: set<int>,
                                                        cmp: (Designation, Designation) -> int)
    requires IsComparator(cmp) && SortedBy(ds, cmp)
    ensures SortedBy(AttachEvaluations(ds, rows, ids, cmp), cmp)
  {
    if rows != [] {
      var n := |rows| - 1;
      AttachEvaluationsKeepsSorted(ds, rows[..n], ids, cmp);
      InsertKeepsSorted(AttachEvaluations(ds, rows[..n], ids, cmp), RowDesignation(rows[n]), cmp);
    }
  }

  /**
   * Reading evaluation rows only adds designations: every earlier one is
   * kept, and every new one is the designation of a row of one of the
   * record's own issue ids.
   */
  lemma {:induction false} AttachEvaluationsOnlyAdds(ds: seq<Designation>, rows: seq<EvaluationRow>, ids: set<int>,
                                                     cmp: (Designation, Designation) -> int)
    ensures var r := AttachEvaluations(ds, rows, ids, cmp);
      && multiset(ds) <= multiset(r)
      && forall d :: d in r ==> d in ds || exists j :: 0 <= j < |rows| && rows[j].issueId in ids && d == RowDesignation(rows[j])
  {
    if rows != [] {
      var n := |rows| - 1;
      AttachEvaluationsOnlyAdds(ds, rows[..n], ids, cmp);
      var r0 := AttachEvaluations(ds, rows[..n], ids, cmp);
      var r := AttachEvaluations(ds, rows, ids, cmp);
      forall d | d in r
        ensures d in ds || exists j :: 0 <= j < |rows| && rows[j].issueId in ids && d == RowDesignation(rows[j])
      {
        assert d in multiset(r);
        if d in r0 && d !in ds {
          var j :| 0 <= j < n && rows[..n][j].issueId in ids && d == RowDesignation(rows[..n][j]);
          assert rows[..n][j] == rows[j];
        }
      }
    }
  }

  /** A record bound to no id gains nothing from the evaluation rows. */
  lemma {:induction false} AttachEvaluationsNoIds(ds: seq<Designation>, rows: seq<EvaluationRow>,
                                                  cmp: (Designation, Designation) -> int)
    ensures AttachEvaluations(ds, rows, {}, cmp) == ds
  {
    if rows != [] {
      AttachEvaluationsNoIds(ds, rows[..|rows| - 1], cmp);
    }
  }

  /** Before any row is read, every record keeps its designations. */
  lemma AttachNoRows(rows: seq<EvaluationRow>)
    ensures forall ds, ids, cmp :: AttachEvaluations(ds, rows[..0], ids, cmp) == ds
  {
    assert rows[..0] == [];
  }

  /** One more row read: the record gains that row's designation when the row is one of its own. */
  lemma AttachStep(rows: seq<EvaluationRow>, i: nat)
    requires i < |rows|
    ensures forall ds, ids, cmp ::
      AttachEvaluations(ds, rows[..i + 1], ids, cmp) ==
        (if rows[i].issueId in ids then Insert(AttachEvaluations(ds, rows[..i], ids, cmp), RowDesignation(rows[i]), cmp)
         else AttachEvaluations(ds, rows[..i], ids, cmp))
  {
    assert rows[..i + 1][..i] == rows[..i];
  }

  /** The rows whose issue id is one of `ids`, in order. */
  function KnownRows(rows: seq<EvaluationRow>, ids: set<int>): (known: seq<EvaluationRow>)
  {
    if rows == [] then []
    else
      var n := |rows| - 1;
      KnownRows(rows[..n], ids) + (if rows[n].issueId in ids then [rows[n]] else [])
  }

  /** Evaluations of unknown issues are dropped: reading only the known rows gives the same history. */
  lemma {:induction false} UnknownEvaluationsDropped(ds: seq<Designation>, rows: seq<EvaluationRow>, ids: set<int>,
                                                     cmp: (Designation, Designation) -> int)
    ensures AttachEvaluations(ds, rows, ids, cmp) == AttachEvaluations(ds, KnownRows(rows, ids), ids, cmp)
  {
    if rows != [] {
      var n := |rows| - 1;
      UnknownEvaluationsDropped(ds, rows[..n], ids, cmp);
      var k := KnownRows(rows[..n], ids);
      if rows[n].issueId in ids {
        assert KnownRows(rows, ids) == k + [rows[n]];
        assert (k + [rows[n]])[..|k|] == k;
      } else {
        assert KnownRows(rows, ids) == k;
      }
    }
  }

  /**
   * The state the last loop of `bugsPopulated` builds: the updates it
   * queues, the first-seen times by hash, and how many findings it counts
   * as already in the database.
   */
  datatype Sweep = Sweep(ops: seq<Update>, firstSeen: map<string, long>, bulkHandled: nat)

  /**
   * The last loop of `bugsPopulated` over `bugs`, given the records by hash,
   * the hashes of the records in the database and the records' first-seen
   * times. It keeps a first-seen time for every hash it started with.
   */
  function Reconcile(bugs: seq<BugInstance>, records: map<string, BugData>, inDb: set<string>,
                     firstSeen: map<string, long>): (s: Sweep)
    requires forall j :: 0 <= j < |bugs| && !Skipped(bugs[j]) ==>
      bugs[j].instanceHash in records && bugs[j].instanceHash in firstSeen
    ensures s.firstSeen.Keys == firstSeen.Keys
  {
    if bugs == [] then Sweep([], firstSeen, 0)
    else
      var n := |bugs| - 1;
      assert forall j :: 0 <= j < n ==> bugs[..n][j] == bugs[j];
      ReconcileStep(Reconcile(bugs[..n], records, inDb, firstSeen), bugs[n], records, inDb)
  }

  /**
   * A finding the database has no row for, on a fresh cloud: once the
   * findings are populated and the database is reached, it sits in a new
   * record that is not in the database, and exactly one insertion, for it,
   * is queued.
   */
  method NewFindingIsQueued(b: BugInstance, mode: Mode, user: string, compare: (Designation, Designation) -> int)
    returns (cloud: DBCloud)
    requires !Skipped(b)
    ensures b.instanceHash in cloud.instanceMap && !cloud.instanceMap[b.instanceHash].inDatabase
    ensures cloud.idMap == map[]
    ensures NewBugs(cloud.queue) == [b] && cloud.issuesBulkHandled == 0
  {
    cloud := new DBCloud(mode, user, compare);
    assert cloud.InDatabaseHashes() == {};
    cloud.BugsPopulated([b], [], [], true);
    assert BoundHashes([], {}, cloud.instanceMap.Keys, 0) == {};
    forall id | id in cloud.idMap ensures false {
    }
    assert Pending([b], {}) == [b] by {
      assert [b][..0] == [];
    }
    assert cloud.queue[0..] == cloud.queue;
  }

  /**
   * A finding the database has a row for, on a fresh cloud: the row's id is
   * bound to the finding's record, which is now in the database, nothing
   * is queued for insertion, and the finding is counted as handled in bulk.
   */
  method FindingWithRowIsBound(b: BugInstance, id: int, firstSeen: long, mode: Mode, user: string,
                               compare: (Designation, Designation) -> int)
    returns (cloud: DBCloud)
    requires !Skipped(b)
    ensures b.instanceHash in cloud.instanceMap && cloud.instanceMap[b.instanceHash].inDatabase
    ensures id in cloud.idMap && cloud.idMap[id] == cloud.instanceMap[b.instanceHash]
    ensures NewBugs(cloud.queue) == [] && cloud.issuesBulkHandled == 1
  {
    cloud := new DBCloud(mode, user, compare);
    assert cloud.InDatabaseHashes() == {};
    var rows := [IssueRow(id, b.instanceHash, firstSeen, None, None, None)];
    cloud.BugsPopulated([b], rows, [], true);
    assert Binds(rows, {}, cloud.instanceMap.Keys, 0);
    assert BoundHashes(rows, {}, cloud.instanceMap.Keys, 1) == {b.instanceHash};
    assert cloud.queue[0..] == cloud.queue;
  }

  /** The findings that are not skipped and whose hash is not in the database, in order. */
  function Pending(bugs: seq<BugInstance>, inDb: set<string>): (p: seq<BugInstance>)
  {
    if bugs == [] then []
    else
      var n := |bugs| - 1;
      Pending(bugs[..n], inDb) + (if !Skipped(bugs[n]) && bugs[n].instanceHash !in inDb then [bugs[n]] else [])
  }

  /** Every finding awaiting insertion is one of the findings, not skipped, and not in the database. */
  lemma {:induction false} PendingAreUnsynced(bugs: seq<BugInstance>, inDb: set<string>)
    ensures forall x :: x in Pending(bugs, inDb) ==> x in bugs && !Skipped(x) && x.instanceHash !in inDb
  {
    if bugs != [] {
      var n := |bugs| - 1;
      PendingAreUnsynced(bugs[..n], inDb);
      forall x | x in Pending(bugs, inDb) ensures x in bugs && !Skipped(x) && x.instanceHash !in inDb {
        if x in Pending(bugs[..n], inDb) {
          assert x in bugs[..n];
        }
      }
    }
  }

  /** How many findings are not skipped and have their hash in the database. */
  function CountInDb(bugs: seq<BugInstance>, inDb: set<string>): (n: nat)
  {
    if bugs == [] then 0
    else
      var n := |bugs| - 1;
      CountInDb(bugs[..n], inDb) + (if !Skipped(bugs[n]) && bugs[n].instanceHash in inDb then 1 else 0)
  }

  /** The findings the queued insertions carry, in order. */
  function NewBugs(ops: seq<Update>): (found: seq<BugInstance>)
  {
    if ops == [] then []
    else
      var n := |ops| - 1;
      NewBugs(ops[..n]) + (if ops[n].StoreNewBug? then [ops[n].bug] else [])
  }

  /** One more update adds its finding when it is an insertion. */
  lemma {:induction false} NewBugsOfAppend(ops: seq<Update>, u: Update)
    ensures NewBugs(ops + [u]) == NewBugs(ops) + (if u.StoreNewBug? then [u.bug] else [])
  {
    assert (ops + [u])[..|ops|] == ops;
  }

  /**
   * Exactly one insertion is queued for each finding not skipped and not in
   * the database, in the order of the findings, and every finding in the
   * database is counted once.
   */
  lemma {:induction false} ReconcileQueuesPending(bugs: seq<BugInstance>, records: map<string, BugData>, inDb: set<string>,
                                                  firstSeen: map<string, long>)
    requires forall j :: 0 <= j < |bugs| && !Skipped(bugs[j]) ==>
      bugs[j].instanceHash in records && bugs[j].instanceHash in firstSeen
    ensures var s := Reconcile(bugs, records, inDb, firstSeen);
      NewBugs(s.ops) == Pending(bugs, inDb) && s.bulkHandled == CountInDb(bugs, inDb)
  {
    if bugs != [] {
      var n := |bugs| - 1;
      assert forall j :: 0 <= j < n ==> bugs[..n][j] == bugs[j];
      ReconcileQueuesPending(bugs[..n], records, inDb, firstSeen);
      var s0 := Reconcile(bugs[..n], records, inDb, firstSeen);
      var b := bugs[n];
      if !Skipped(b) && b.instanceHash !in inDb {
        NewBugsOfAppend(s0.ops, Update.StoreNewBug(b));
      } else if !Skipped(b) && !(b.firstVersionTime < MINIMUM_TIMESTAMP || b.firstVersionTime >= s0.firstSeen[b.instanceHash]) {
        NewBugsOfAppend(s0.ops, Update.StoreFirstSeen(records[b.instanceHash]));
      }
    }
  }

  /**
   * Every queued update is an insertion of a finding of `bugs` that is not
   * skipped and not in the database, or a first-seen update of a record in
   * the database.
   */
  ghost predicate QueuedOnly(ops: seq<Update>, bugs: seq<BugInstance>, records: map<string, BugData>, inDb: set<string>)
  {
    forall i :: 0 <= i < |ops| ==>
      || (ops[i].StoreNewBug? && ops[i].bug in bugs && !Skipped(ops[i].bug) && ops[i].bug.instanceHash !in inDb)
      || (ops[i].StoreFirstSeen? && exists h :: h in inDb && h in records && ops[i].record == records[h])
  }

  /** Nothing but those two kinds of update is queued. */
  lemma {:induction false} ReconcileQueuesOnly(bugs: seq<BugInstance>, records: map<string, BugData>, inDb: set<string>,
                                               firstSeen: map<string, long>)
    requires forall j :: 0 <= j < |bugs| && !Skipped(bugs[j]) ==>
      bugs[j].instanceHash in records && bugs[j].instanceHash in firstSeen
    ensures QueuedOnly(Reconcile(bugs, records, inDb, firstSeen).ops, bugs, records, inDb)
  {
    if bugs != [] {
      var n := |bugs| - 1;
      assert forall j :: 0 <= j < n ==> bugs[..n][j] == bugs[j];
      ReconcileQueuesOnly(bugs[..n], records, inDb, firstSeen);
      var s0 := Reconcile(bugs[..n], records, inDb, firstSeen);
      var s := Reconcile(bugs, records, inDb, firstSeen);
      assert QueuedOnly(s0.ops, bugs[..n], records, inDb);
      var b := bugs[n];
      var h := b.instanceHash;
      forall i | 0 <= i < |s.ops|
        ensures || (s.ops[i].StoreNewBug? && s.ops[i].bug in bugs && !Skipped(s.ops[i].bug) && s.ops[i].bug.instanceHash !in inDb)
                || (s.ops[i].StoreFirstSeen? && exists h :: h in inDb && h in records && s.ops[i].record == records[h])
      {
        if i < |s0.ops| {
          assert s.ops[i] == s0.ops[i];
          if s0.ops[i].StoreNewBug? {
            var k :| 0 <= k < n && bugs[..n][k] == s0.ops[i].bug;
            assert bugs[k] == s0.ops[i].bug;
          }
        } else if h in inDb {
          assert s.ops[i] == Update.StoreFirstSeen(records[h]);
        } else {
          assert s.ops[i] == Update.StoreNewBug(b);
        }
      }
    }
  }

  /** A skipped finding (NOISE, or dead) is never queued for insertion. */
  lemma SkippedNeverQueued(bugs: seq<BugInstance>, records: map<string, BugData>, inDb: set<string>,
                           firstSeen: map<string, long>, b: BugInstance)
    requires forall j :: 0 <= j < |bugs| && !Skipped(bugs[j]) ==>
      bugs[j].instanceHash in records && bugs[j].instanceHash in firstSeen
    requires Skipped(b)
    ensures Update.StoreNewBug(b) !in Reconcile(bugs, records, inDb, firstSeen).ops
  {
    ReconcileQueuesOnly(bugs, records, inDb, firstSeen);
  }

  /**
   * A first-seen time only ever moves down, to a value not below
   * `MINIMUM_TIMESTAMP`, and only for a record in the database.
   */
  lemma {:induction false} ReconcileLowersFirstSeen(bugs: seq<BugInstance>, records: map<string, BugData>, inDb: set<string>,
                                                    firstSeen: map<string, long>, h: string)
    requires forall j :: 0 <= j < |bugs| && !Skipped(bugs[j]) ==>
      bugs[j].instanceHash in records && bugs[j].instanceHash in firstSeen
    requires h in firstSeen
    ensures var s := Reconcile(bugs, records, inDb, firstSeen);
      s.firstSeen[h] == firstSeen[h] || (h in inDb && MINIMUM_TIMESTAMP <= s.firstSeen[h] < firstSeen[h])
  {
    if bugs != [] {
      var n := |bugs| - 1;
      assert forall j :: 0 <= j < n ==> bugs[..n][j] == bugs[j];
      ReconcileLowersFirstSeen(bugs[..n], records, inDb, firstSeen, h);
    }
  }

  /**
   * The last loop of `bugsPopulated` for one more finding `b`: a skipped
   * finding changes nothing; otherwise at most one update is queued and the
   * finding is counted in bulk when its hash is in the database.
   */
  function ReconcileStep(s: Sweep, b: BugInstance, records: map<string, BugData>, inDb: set<string>): (r: Sweep)
    requires !Skipped(b) ==> b.instanceHash in records && b.instanceHash in s.firstSeen
    ensures Skipped(b) ==> r == s
    ensures s.ops <= r.ops && |r.ops| <= |s.ops| + 1
    ensures r.bulkHandled == s.bulkHandled + (if !Skipped(b) && b.instanceHash in inDb then 1 else 0)
    ensures r.firstSeen.Keys == s.firstSeen.Keys
  {
    var h := b.instanceHash;
    if Skipped(b) then s
    else if h !in inDb then Sweep(s.ops + [Update.StoreNewBug(b)], s.firstSeen, s.bulkHandled)
    else if b.firstVersionTime < MINIMUM_TIMESTAMP || b.firstVersionTime >= s.firstSeen[h] then
      Sweep(s.ops, s.firstSeen, s.bulkHandled + 1)
    else Sweep(s.ops + [Update.StoreFirstSeen(records[h])], s.firstSeen[h := b.firstVersionTime], s.bulkHandled + 1)
  }

  /** One step moves only the finding's own first-seen time, and only down. */
  lemma ReconcileStepLowersOwnTime(s: Sweep, b: BugInstance, records: map<string, BugData>, inDb: set<string>, h: string)
    requires !Skipped(b) ==> b.instanceHash in records && b.instanceHash in s.firstSeen
    requires h in s.firstSeen
    ensures var r := ReconcileStep(s, b, records, inDb);
      r.firstSeen[h] <= s.firstSeen[h] && (h != b.instanceHash ==> r.firstSeen[h] == s.firstSeen[h])
  {
  }
}

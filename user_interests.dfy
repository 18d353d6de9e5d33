/**
 * The `POST /user-interests` handler of routes/users.js.
 *
 * A client submits an `interestsArray` of (userid, interestid) records. The
 * handler reads the rows of the UserInterests table whose userid occurs among
 * the submitted userids and whose interestid occurs among the submitted
 * interestids, builds the set of their (userid, interestid) combinations, and
 * inserts, in submission order, exactly those submitted records whose
 * combination is not in that set.
 *
 * The table is an in-memory sequence passed in and returned; the combination
 * key is the integer pair itself.
 */
module UserInterests {

  /** A row of the UserInterests table, and one element of a submitted `interestsArray`. */
  datatype UserInterest = UserInterest(userid: int, interestid: int)

  /** The lookup key of a record: the full (userid, interestid) pair. */
  type Combination = (int, int)

  function KeyOf(r: UserInterest): Combination
  {
    (r.userid, r.interestid)
  }

  /** Some row of `rows` has exactly this userid AND exactly this interestid. */
  predicate Recorded(rows: seq<UserInterest>, userid: int, interestid: int)
  {
    exists e :: e in rows && e.userid == userid && e.interestid == interestid
  }

  // ---------------------------------------------------------------------------
  // The query: two independent `.in` filters on the table
  // ---------------------------------------------------------------------------

  /** The userids of the submitted records, as a set. */
  function Userids(records: seq<UserInterest>): (ids: set<int>)
    ensures forall r :: r in records ==> r.userid in ids
    ensures forall u :: u in ids ==> exists r :: r in records && r.userid == u
  {
    if records == [] then {} else {records[0].userid} + Userids(records[1..])
  }

  /** The interestids of the submitted records, as a set. */
  function Interestids(records: seq<UserInterest>): (ids: set<int>)
    ensures forall r :: r in records ==> r.interestid in ids
    ensures forall i :: i in ids ==> exists r :: r in records && r.interestid == i
  {
    if records == [] then {} else {records[0].interestid} + Interestids(records[1..])
  }

  /**
   * The rows `existingRecords` that the select returns: every table row whose
   * userid is among the submitted userids and whose interestid is among the
   * submitted interestids. The two filters are independent, so a row may pair
   * the userid of one submitted record with the interestid of another.
   */
  function FetchExisting(table: seq<UserInterest>, interestsArray: seq<UserInterest>): (existing: seq<UserInterest>)
    ensures forall e :: e in existing <==>
      e in table
      && (exists r :: r in interestsArray && r.userid == e.userid)
      && (exists r :: r in interestsArray && r.interestid == e.interestid)
  {
    SelectIn(table, Userids(interestsArray), Interestids(interestsArray))
  }

  /** The rows of `table`, in order, whose userid is in `users` and whose interestid is in `interests`. */
  function SelectIn(table: seq<UserInterest>, users: set<int>, interests: set<int>): (rows: seq<UserInterest>)
    ensures forall e :: e in rows <==> e in table && e.userid in users && e.interestid in interests
  {
    if table == [] then []
    else if table[0].userid in users && table[0].interestid in interests then
      [table[0]] + SelectIn(table[1..], users, interests)
    else
      SelectIn(table[1..], users, interests)
  }

  // ---------------------------------------------------------------------------
  // The filter
  // ---------------------------------------------------------------------------

  /** The set `existingCombinations`: the key of every existing record. */
  function ExistingCombinations(existingRecords: seq<UserInterest>): (combos: set<Combination>)
    ensures forall u, i :: (u, i) in combos <==> Recorded(existingRecords, u, i)
  {
    if existingRecords == [] then {}
    else
      var rest := ExistingCombinations(existingRecords[1..]);
      assert forall e :: e in existingRecords ==> e == existingRecords[0] || e in existingRecords[1..];
      {KeyOf(existingRecords[0])} + rest
  }

  /** Keeps, in order, the records of `submitted` whose key is not in `combos`. */
  function KeepNew(submitted: seq<UserInterest>, combos: set<Combination>): (kept: seq<UserInterest>)
    ensures |kept| <= |submitted|
    ensures forall r :: r in kept ==> r in submitted && KeyOf(r) !in combos
    ensures forall r :: r in submitted && KeyOf(r) !in combos ==> r in kept
  {
    if submitted == [] then []
    else if KeyOf(submitted[0]) in combos then KeepNew(submitted[1..], combos)
    else [submitted[0]] + KeepNew(submitted[1..], combos)
  }

  /**
   * `uniqueRecords`: the submitted records whose full (userid, interestid)
   * pair is not recorded in `existingRecords`.
   */
  function UniqueRecords(interestsArray: seq<UserInterest>, existingRecords: seq<UserInterest>): (unique: seq<UserInterest>)
    ensures |unique| <= |interestsArray|
    ensures forall r :: r in unique <==>
      r in interestsArray && !Recorded(existingRecords, r.userid, r.interestid)
  {
    KeepNew(interestsArray, ExistingCombinations(existingRecords))
  }

  /**
   * The whole handler on the happy path: query, filter, insert. Returns the
   * table after the insert; the response is always "Added interests!" (200).
   */
  function AddUserInterests(table: seq<UserInterest>, interestsArray: seq<UserInterest>): (table': seq<UserInterest>)
    ensures |table| <= |table'| <= |table| + |interestsArray|
    ensures table'[..|table|] == table
    ensures table'[|table|..] == UniqueRecords(interestsArray, table)
    ensures forall r :: r in interestsArray ==> Recorded(table', r.userid, r.interestid)
    ensures forall r :: r in table'[|table|..] ==> r in interestsArray && !Recorded(table, r.userid, r.interestid)
  {
    var unique := UniqueRecords(interestsArray, FetchExisting(table, interestsArray));
    FetchAgreesWithTable(table, interestsArray);
    assert (table + unique)[..|table|] == table;
    assert (table + unique)[|table|..] == unique;
    table + unique
  }

  // ---------------------------------------------------------------------------
  // Properties of the filter
  // ---------------------------------------------------------------------------

  /** `xs` occurs in `ys` in order, possibly with gaps. */
  predicate IsSubsequence(xs: seq<UserInterest>, ys: seq<UserInterest>)
    decreases |ys|
  {
    if xs == [] then true
    else if ys == [] then false
    else if xs[0] == ys[0] then IsSubsequence(xs[1..], ys[1..])
    else IsSubsequence(xs, ys[1..])
  }

  lemma {:induction false} SubsequenceLength(xs: seq<UserInterest>, ys: seq<UserInterest>)
    requires IsSubsequence(xs, ys)
    ensures |xs| <= |ys|
    decreases |ys|
  {
    if xs != [] {
      if xs[0] == ys[0] {
        SubsequenceLength(xs[1..], ys[1..]);
      } else {
        SubsequenceLength(xs, ys[1..]);
      }
    }
  }

  lemma {:induction false} KeepNewIsSubsequence(submitted: seq<UserInterest>, combos: set<Combination>)
    ensures IsSubsequence(KeepNew(submitted, combos), submitted)
  {
    if submitted != [] {
      var kept := KeepNew(submitted, combos);
      KeepNewIsSubsequence(submitted[1..], combos);
      if KeyOf(submitted[0]) in combos {
        // a dropped head is never the first kept record, so matching skips it
        assert kept != [] ==> kept[0] in kept && kept[0] != submitted[0];
      } else {
        assert kept[1..] == KeepNew(submitted[1..], combos);
      }
    }
  }

  /** The result keeps the submission order: it is a subsequence of `interestsArray`. */
  lemma UniqueRecordsIsSubsequence(interestsArray: seq<UserInterest>, existingRecords: seq<UserInterest>)
    ensures IsSubsequence(UniqueRecords(interestsArray, existingRecords), interestsArray)
  {
    KeepNewIsSubsequence(interestsArray, ExistingCombinations(existingRecords));
  }

  lemma {:induction false} KeepNewCount(submitted: seq<UserInterest>, combos: set<Combination>, r: UserInterest)
    ensures multiset(KeepNew(submitted, combos))[r] ==
      if KeyOf(r) in combos then 0 else multiset(submitted)[r]
  {
    if submitted != [] {
      KeepNewCount(submitted[1..], combos, r);
      assert submitted == [submitted[0]] + submitted[1..];
    }
  }

  /**
   * Duplicates are not collapsed: a record whose pair is not recorded appears
   * in the result exactly as often as it was submitted; a recorded one never.
   */
  lemma UniqueRecordsCount(interestsArray: seq<UserInterest>, existingRecords: seq<UserInterest>, r: UserInterest)
    ensures multiset(UniqueRecords(interestsArray, existingRecords))[r] ==
      if Recorded(existingRecords, r.userid, r.interestid) then 0 else multiset(interestsArray)[r]
  {
    KeepNewCount(interestsArray, ExistingCombinations(existingRecords), r);
  }

  /** Example of `UniqueRecordsCount`: two identical new records are both kept. */
  lemma DuplicateNewRecordsBothKept(r: UserInterest, existingRecords: seq<UserInterest>)
    requires !Recorded(existingRecords, r.userid, r.interestid)
    ensures UniqueRecords([r, r], existingRecords) == [r, r]
  {
  }

  lemma {:induction false} KeepNewNothing(submitted: seq<UserInterest>)
    ensures KeepNew(submitted, {}) == submitted
  {
    if submitted != [] {
      KeepNewNothing(submitted[1..]);
    }
  }

  /** With no existing records the output equals the input. */
  lemma NoExistingKeepsAll(interestsArray: seq<UserInterest>)
    ensures UniqueRecords(interestsArray, []) == interestsArray
  {
    KeepNewNothing(interestsArray);
  }

  lemma {:induction false} KeepNewAllKnown(submitted: seq<UserInterest>, combos: set<Combination>)
    requires forall r :: r in submitted ==> KeyOf(r) in combos
    ensures KeepNew(submitted, combos) == []
  {
    if submitted != [] {
      assert submitted[0] in submitted;
      KeepNewAllKnown(submitted[1..], combos);
    }
  }

  /** When every submitted pair already exists the output is empty. */
  lemma AllExistingKeepsNone(interestsArray: seq<UserInterest>, existingRecords: seq<UserInterest>)
    requires forall r :: r in interestsArray ==> Recorded(existingRecords, r.userid, r.interestid)
    ensures UniqueRecords(interestsArray, existingRecords) == []
  {
    KeepNewAllKnown(interestsArray, ExistingCombinations(existingRecords));
  }

  lemma {:induction false} KeepNewAgree(submitted: seq<UserInterest>, c1: set<Combination>, c2: set<Combination>)
    requires forall r :: r in submitted ==> (KeyOf(r) in c1 <==> KeyOf(r) in c2)
    ensures KeepNew(submitted, c1) == KeepNew(submitted, c2)
  {
    if submitted != [] {
      assert submitted[0] in submitted;
      KeepNewAgree(submitted[1..], c1, c2);
    }
  }

  /**
   * Filtering against the rows the two independent `.in` filters return gives
   * the same result as filtering against the whole table: the cross-product
   * rows (a submitted userid with another record's interestid) never remove a
   * record, and the query never misses a row that would.
   */
  lemma FetchAgreesWithTable(table: seq<UserInterest>, interestsArray: seq<UserInterest>)
    ensures UniqueRecords(interestsArray, FetchExisting(table, interestsArray)) ==
      UniqueRecords(interestsArray, table)
  {
    var fetched := FetchExisting(table, interestsArray);
    forall r | r in interestsArray
      ensures Recorded(fetched, r.userid, r.interestid) <==> Recorded(table, r.userid, r.interestid)
    {
      if Recorded(table, r.userid, r.interestid) {
        var e :| e in table && e.userid == r.userid && e.interestid == r.interestid;
        assert e in fetched;
      }
    }
    KeepNewAgree(interestsArray, ExistingCombinations(fetched), ExistingCombinations(table));
  }

  /** Submitting the same array again adds nothing: insertion is idempotent. */
  lemma ResubmitAddsNothing(table: seq<UserInterest>, interestsArray: seq<UserInterest>)
    ensures AddUserInterests(AddUserInterests(table, interestsArray), interestsArray) ==
      AddUserInterests(table, interestsArray)
  {
    var table' := AddUserInterests(table, interestsArray);
    FetchAgreesWithTable(table', interestsArray);
    AllExistingKeepsNone(interestsArray, table');
  }
}

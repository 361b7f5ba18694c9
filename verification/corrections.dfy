/**
 The correction log of utils/corrections_db.py (`CorrectionsDatabase`): an
 append-only list of instructor corrections kept in a JSON file under the key
 `corrections`.

 The file is an `Option<seq<Correction>>`: `None` when it cannot be opened or
 parsed or has no `corrections` list, which every operation treats as the
 source's caught exception. Writing the file back is not modelled; the clock
 (`datetime.now().isoformat()`) is a parameter.
 */
module CorrectionsDb {
  import opened Wrappers
  import opened PyStr

  /** One stored correction. `instructor` and `feedback_type` may be missing
      from a record read back from the file; `timestamp` is read with
      `x["timestamp"]`, outside any `try`, so it is taken to be present. */
  datatype Correction = Correction(
    id: int, timestamp: string, instructor: Option<string>, userLevel: Option<string>,
    feedbackType: Option<string>, question: string, originalResponse: string, correction: string)

  type Db = Option<seq<Correction>>

  /** The defaults of `add_correction`'s keyword arguments. */
  const DefaultInstructor: string := "Dianik"
  const DefaultUserLevel: string := "estudiante"
  const DefaultFeedbackType: string := "incorrecta"
  /** The key under which records without one are counted by `get_stats`. */
  const UnknownKey: string := "desconocido"

  /** Ids number the records 1, 2, 3, ... in file order. */
  predicate SequentialIds(cs: seq<Correction>) {
    forall i :: 0 <= i < |cs| ==> cs[i].id == i + 1
  }

  datatype Appended = Appended(ok: bool, db: Db)

  /** `add_correction`: on a readable file, one record with id `len + 1` and
      timestamp `now` is appended and the earlier ones are kept; otherwise
      `False` and the file is left alone. A keyword argument the caller
      leaves out (`None`) is stored as its default. */
  function AddCorrection(
    db: Db, question: string, originalResponse: string, correction: string,
    instructor: Option<string>, userLevel: Option<string>, feedbackType: Option<string>,
    now: string): (a: Appended)
    ensures a.ok <==> db.Some?
    ensures !a.ok ==> a.db == db
    ensures a.ok ==>
      && a.db.Some? && |a.db.value| == |db.value| + 1
      && a.db.value[..|db.value|] == db.value
      && var c := a.db.value[|db.value|];
         && c.id == |db.value| + 1 && c.timestamp == now
         && c.question == question && c.originalResponse == originalResponse
         && c.correction == correction
         && c.instructor == Some(if instructor.Some? then instructor.value else DefaultInstructor)
         && c.userLevel == Some(if userLevel.Some? then userLevel.value else DefaultUserLevel)
         && c.feedbackType == Some(if feedbackType.Some? then feedbackType.value else DefaultFeedbackType)
    ensures a.ok && SequentialIds(db.value) ==> SequentialIds(a.db.value)
  {
    match db
    case None => Appended(false, db)
    case Some(cs) =>
      var c := Correction(|cs| + 1, now, Some(instructor.GetOr(DefaultInstructor)),
                          Some(userLevel.GetOr(DefaultUserLevel)), Some(feedbackType.GetOr(DefaultFeedbackType)),
                          question, originalResponse, correction);
      assert (cs + [c])[..|cs|] == cs;
      Appended(true, Some(cs + [c]))
  }

  /** `get_all_corrections`: the stored list, or `[]` when the file cannot be
      read. */
  function GetAll(db: Db): (cs: seq<Correction>)
    ensures db.None? ==> cs == []
    ensures db.Some? ==> cs == db.value
  {
    db.GetOr([])
  }

  // ---------------------------------------------------------------------
  // get_recent_corrections

  /** Every record is at least as recent as every later one. */
  predicate NewestFirst(cs: seq<Correction>) {
    forall i, j :: 0 <= i < j < |cs| ==> StrLeq(cs[j].timestamp, cs[i].timestamp)
  }

  /** Places `x` before the first record that is not strictly newer, so
      that it stays ahead of records with an equal timestamp. */
  function Insert(x: Correction, cs: seq<Correction>): (r: seq<Correction>)
    ensures multiset(r) == multiset(cs) + multiset{x}
  {
    if cs == [] then [x]
    else
      assert cs == [cs[0]] + cs[1..];
      if StrLess(x.timestamp, cs[0].timestamp) then [cs[0]] + Insert(x, cs[1..])
      else [x] + cs
  }

  /** `sorted(cs, key=lambda x: x["timestamp"], reverse=True)`, by insertion
      of each record, in list order, ahead of its equals. */
  function SortNewestFirst(cs: seq<Correction>): (r: seq<Correction>)
    ensures multiset(r) == multiset(cs)
  {
    if cs == [] then []
    else
      assert cs == [cs[0]] + cs[1..];
      Insert(cs[0], SortNewestFirst(cs[1..]))
  }

  lemma NewestFirstTail(cs: seq<Correction>)
    requires NewestFirst(cs) && cs != []
    ensures NewestFirst(cs[1..])
    ensures forall y :: y in cs[1..] ==> StrLeq(y.timestamp, cs[0].timestamp)
  {
  }

  lemma NewestFirstCons(y: Correction, cs: seq<Correction>)
    requires NewestFirst(cs)
    requires forall z :: z in cs ==> StrLeq(z.timestamp, y.timestamp)
    ensures NewestFirst([y] + cs)
  {
  }

  lemma {:induction false} InsertNewestFirst(x: Correction, cs: seq<Correction>)
    requires NewestFirst(cs)
    ensures NewestFirst(Insert(x, cs))
  {
    if cs == [] {
    } else if StrLess(x.timestamp, cs[0].timestamp) {
      var rest := Insert(x, cs[1..]);
      NewestFirstTail(cs);
      InsertNewestFirst(x, cs[1..]);
      forall z | z in rest
        ensures StrLeq(z.timestamp, cs[0].timestamp)
      {
        assert z in multiset(rest);
        if z != x {
          assert z in multiset(cs[1..]);
        }
      }
      NewestFirstCons(cs[0], rest);
    } else {
      StrLessTrichotomy(x.timestamp, cs[0].timestamp);
      NewestFirstTail(cs);
      forall z | z in cs
        ensures StrLeq(z.timestamp, x.timestamp)
      {
        if z != cs[0] {
          assert cs == [cs[0]] + cs[1..];
          StrLeqTrans(z.timestamp, cs[0].timestamp, x.timestamp);
        }
      }
      NewestFirstCons(x, cs);
    }
  }

  /** The sorted list is newest first. */
  lemma {:induction false} SortIsNewestFirst(cs: seq<Correction>)
    ensures NewestFirst(SortNewestFirst(cs))
  {
    if cs != [] {
      SortIsNewestFirst(cs[1..]);
      InsertNewestFirst(cs[0], SortNewestFirst(cs[1..]));
    }
  }

  /** `get_recent_corrections(n)`: a prefix of the stored records sorted
      newest first. For `n >= 0` it has `min(n, total)` records. */
  function RecentCorrections(db: Db, n: int): (r: seq<Correction>)
    ensures var all := GetAll(db);
      && |r| == (if n >= 0 then (if n < |all| then n else |all|) else (if |all| + n > 0 then |all| + n else 0))
      && multiset(r) <= multiset(all)
      && r == SortNewestFirst(all)[..|r|]
  {
    var sorted := SortNewestFirst(GetAll(db));
    var r := SliceTo(sorted, n);
    assert sorted == r + sorted[|r|..];
    r
  }

  /** The recent records are newest first. */
  lemma RecentNewestFirst(db: Db, n: int)
    ensures NewestFirst(RecentCorrections(db, n))
  {
    var sorted := SortNewestFirst(GetAll(db));
    var r := RecentCorrections(db, n);
    SortIsNewestFirst(GetAll(db));
    forall i, j | 0 <= i < j < |r|
      ensures StrLeq(r[j].timestamp, r[i].timestamp)
    {
      assert r[i] == sorted[i] && r[j] == sorted[j];
    }
  }

  /** No stored record left out of the recent ones is newer than the last
      of them. */
  lemma RecentAreNewest(db: Db, n: int)
    ensures var r := RecentCorrections(db, n);
      forall c :: c in GetAll(db) && c !in r && r != [] ==> StrLeq(c.timestamp, r[|r| - 1].timestamp)
  {
    var all := GetAll(db);
    var sorted := SortNewestFirst(all);
    var r := RecentCorrections(db, n);
    SortIsNewestFirst(all);
    assert sorted == r + sorted[|r|..];
    forall c | c in all && c !in r && r != []
      ensures StrLeq(c.timestamp, r[|r| - 1].timestamp)
    {
      assert c in multiset(sorted);
      assert c in sorted[|r|..];
      OlderThanPrefix(sorted, |r|, c);
      assert r[|r| - 1] == sorted[|r| - 1];
    }
  }

  lemma OlderThanPrefix(sorted: seq<Correction>, m: nat, c: Correction)
    requires NewestFirst(sorted) && 0 < m <= |sorted|
    requires c in sorted[m..]
    ensures StrLeq(c.timestamp, sorted[m - 1].timestamp)
  {
  }

  // ---------------------------------------------------------------------
  // get_stats

  /** One key of a count dictionary and its count. */
  datatype Entry = Entry(key: string, count: nat)

  function Keys(t: seq<Entry>): seq<string> {
    seq(|t|, i requires 0 <= i < |t| => t[i].key)
  }

  function Total(t: seq<Entry>): nat {
    if t == [] then 0 else t[0].count + Total(t[1..])
  }

  /** How many times `k` occurs in `ks`. */
  function Occurrences(ks: seq<string>, k: string): nat {
    if ks == [] then 0 else (if ks[0] == k then 1 else 0) + Occurrences(ks[1..], k)
  }

  /** `d[k] = d.get(k, 0) + 1` on a dictionary kept in insertion order. */
  function Bump(t: seq<Entry>, k: string): (r: seq<Entry>)
    ensures Total(r) == Total(t) + 1
    ensures |r| == if k in Keys(t) then |t| else |t| + 1
  {
    if t == [] then [Entry(k, 1)]
    else
      assert Keys(t) == [t[0].key] + Keys(t[1..]);
      if t[0].key == k then [Entry(k, t[0].count + 1)] + t[1..]
      else [t[0]] + Bump(t[1..], k)
  }

  /** The loop of `get_stats` over one key: a dictionary from each key to
      how often it occurs, keys in order of first occurrence. */
  function Tally(ks: seq<string>): (t: seq<Entry>)
    ensures Total(t) == |ks|
  {
    if ks == [] then [] else Bump(Tally(ks[..|ks| - 1]), ks[|ks| - 1])
  }

  lemma {:induction false} OccurrencesSnoc(ks: seq<string>, x: string, k: string)
    ensures Occurrences(ks + [x], k) == Occurrences(ks, k) + (if x == k then 1 else 0)
  {
    if ks != [] {
      assert (ks + [x])[1..] == ks[1..] + [x];
      OccurrencesSnoc(ks[1..], x, k);
    }
  }

  lemma {:induction false} OccurrencesIn(ks: seq<string>, k: string)
    ensures Occurrences(ks, k) > 0 <==> k in ks
  {
    if ks != [] {
      OccurrencesIn(ks[1..], k);
      assert ks == [ks[0]] + ks[1..];
    }
  }

  /** The keys of a tally are distinct. */
  predicate DistinctKeys(t: seq<Entry>) {
    forall i, j :: 0 <= i < j < |t| ==> t[i].key != t[j].key
  }

  /** Bumping `k` adds one to its entry, or appends it with count 1 when it
      is new, and leaves every other entry alone. */
  lemma {:induction false} BumpAt(t: seq<Entry>, k: string, i: nat)
    requires DistinctKeys(t)
    requires i < |Bump(t, k)|
    ensures Bump(t, k)[i] ==
      if i < |t| then (if t[i].key == k then Entry(k, t[i].count + 1) else t[i]) else Entry(k, 1)
  {
    if t != [] {
      assert Keys(t) == [t[0].key] + Keys(t[1..]);
      if t[0].key == k {
        if i > 0 {
          assert t[i].key != t[0].key;
        }
      } else if i > 0 {
        DistinctTail(t);
        BumpAt(t[1..], k, i - 1);
        assert i < |t| ==> t[i] == t[1..][i - 1];
      }
    }
  }

  lemma DistinctTail(t: seq<Entry>)
    requires DistinctKeys(t) && t != []
    ensures DistinctKeys(t[1..])
  {
  }

  /** Bumping keeps the keys distinct and adds `k` to them. */
  lemma BumpKeys(t: seq<Entry>, k: string)
    requires DistinctKeys(t)
    ensures DistinctKeys(Bump(t, k))
    ensures forall key :: key in Keys(Bump(t, k)) <==> key in Keys(t) || key == k
  {
    var r := Bump(t, k);
    forall i, j | 0 <= i < j < |r|
      ensures r[i].key != r[j].key
    {
      BumpAt(t, k, i);
      BumpAt(t, k, j);
      if j == |t| {
        assert Keys(t)[i] == t[i].key;
      }
    }
    forall key
      ensures key in Keys(r) <==> key in Keys(t) || key == k
    {
      if key in Keys(r) {
        var i :| 0 <= i < |r| && Keys(r)[i] == key;
        BumpAt(t, k, i);
        if i < |t| { assert Keys(t)[i] == t[i].key; }
      }
      if key in Keys(t) {
        var i :| 0 <= i < |t| && Keys(t)[i] == key;
        BumpAt(t, k, i);
        assert Keys(r)[i] == key;
      }
      if key == k && k !in Keys(t) {
        BumpAt(t, k, |t|);
        assert Keys(r)[|t|] == k;
      }
    }
  }

  /** The keys of the tally are distinct and are exactly the input keys. */
  lemma {:induction false} TallyKeys(ks: seq<string>)
    ensures DistinctKeys(Tally(ks))
    ensures forall k :: k in Keys(Tally(ks)) <==> k in ks
    decreases |ks|
  {
    if ks != [] {
      var init, x := ks[..|ks| - 1], ks[|ks| - 1];
      assert ks == init + [x];
      TallyKeys(init);
      BumpKeys(Tally(init), x);
    }
  }

  /** Each count of the tally is the number of occurrences of its key. */
  lemma {:induction false} TallyCountAt(ks: seq<string>, i: nat)
    requires i < |Tally(ks)|
    ensures Tally(ks)[i].count == Occurrences(ks, Tally(ks)[i].key) > 0
    decreases |ks|
  {
    var init, x := ks[..|ks| - 1], ks[|ks| - 1];
    assert ks == init + [x];
    var t0 := Tally(init);
    var key := Tally(ks)[i].key;
    TallyKeys(init);
    BumpAt(t0, x, i);
    OccurrencesSnoc(init, x, key);
    if i < |t0| {
      TallyCountAt(init, i);
    } else {
      assert x !in Keys(t0) && key == x;
      OccurrencesIn(init, x);
    }
  }

  lemma TallyCounts(ks: seq<string>)
    ensures forall i :: 0 <= i < |Tally(ks)| ==> Tally(ks)[i].count == Occurrences(ks, Tally(ks)[i].key) > 0
  {
    forall i | 0 <= i < |Tally(ks)|
      ensures Tally(ks)[i].count == Occurrences(ks, Tally(ks)[i].key) > 0
    {
      TallyCountAt(ks, i);
    }
  }

  /** Every key of the tally occurs in the input, every input key has an
      entry, keys are distinct, and each count is the number of
      occurrences of its key. */
  lemma TallySpec(ks: seq<string>)
    ensures var t := Tally(ks);
      && DistinctKeys(t)
      && (forall k :: k in Keys(t) <==> k in ks)
      && (forall i :: 0 <= i < |t| ==> t[i].count == Occurrences(ks, t[i].key) > 0)
  {
    TallyKeys(ks);
    TallyCounts(ks);
  }

  datatype Stats = Stats(total: nat, byType: seq<Entry>, byInstructor: seq<Entry>)

  function FeedbackKeys(cs: seq<Correction>): (ks: seq<string>)
    ensures |ks| == |cs|
    ensures forall i :: 0 <= i < |cs| ==> ks[i] == cs[i].feedbackType.GetOr(UnknownKey)
  {
    seq(|cs|, i requires 0 <= i < |cs| => cs[i].feedbackType.GetOr(UnknownKey))
  }

  function InstructorKeys(cs: seq<Correction>): (ks: seq<string>)
    ensures |ks| == |cs|
    ensures forall i :: 0 <= i < |cs| ==> ks[i] == cs[i].instructor.GetOr(UnknownKey)
  {
    seq(|cs|, i requires 0 <= i < |cs| => cs[i].instructor.GetOr(UnknownKey))
  }

  /** `get_stats`: the number of records, and per feedback type and per
      instructor the number of records with it; both tallies account for
      every record, and an unreadable or empty log has empty tallies. */
  function GetStats(db: Db): (st: Stats)
    ensures st.total == |GetAll(db)|
    ensures Total(st.byType) == st.total && Total(st.byInstructor) == st.total
    ensures st.total == 0 ==> st.byType == [] && st.byInstructor == []
  {
    var cs := GetAll(db);
    if |cs| == 0 then Stats(0, [], [])
    else Stats(|cs|, Tally(FeedbackKeys(cs)), Tally(InstructorKeys(cs)))
  }

  /** Each feedback-type entry counts exactly the records of that type (a
      record without one counting as `desconocido`), and every type present
      has an entry. */
  lemma GetStatsByType(db: Db)
    ensures var st := GetStats(db);
      && DistinctKeys(st.byType)
      && (forall i :: 0 <= i < |st.byType| ==>
            st.byType[i].count == Occurrences(FeedbackKeys(GetAll(db)), st.byType[i].key))
      && (forall c :: c in GetAll(db) ==> c.feedbackType.GetOr(UnknownKey) in Keys(st.byType))
  {
    var cs := GetAll(db);
    var ks := FeedbackKeys(cs);
    TallySpec(ks);
    forall c | c in cs
      ensures c.feedbackType.GetOr(UnknownKey) in Keys(GetStats(db).byType)
    {
      var i :| 0 <= i < |cs| && cs[i] == c;
      assert ks[i] in ks;
    }
  }

  /** The same for instructors. */
  lemma GetStatsByInstructor(db: Db)
    ensures var st := GetStats(db);
      && DistinctKeys(st.byInstructor)
      && (forall i :: 0 <= i < |st.byInstructor| ==>
            st.byInstructor[i].count == Occurrences(InstructorKeys(GetAll(db)), st.byInstructor[i].key))
      && (forall c :: c in GetAll(db) ==> c.instructor.GetOr(UnknownKey) in Keys(st.byInstructor))
  {
    var cs := GetAll(db);
    var ks := InstructorKeys(cs);
    TallySpec(ks);
    forall c | c in cs
      ensures c.instructor.GetOr(UnknownKey) in Keys(GetStats(db).byInstructor)
    {
      var i :| 0 <= i < |cs| && cs[i] == c;
      assert ks[i] in ks;
    }
  }
}

/**
 * The speedtest_results table: an append-only sequence of rows with an
 * AUTOINCREMENT id, created by CREATE TABLE IF NOT EXISTS, and the two queries
 * the readers issue ("ORDER BY test_time DESC LIMIT n" and its LIMIT 1 form).
 */
module Store {
  import opened Wrappers
  import opened Timestamp

  /** Every column of speedtest_results but id. Speeds and distance stay opaque. */
  datatype Record = Record(
    isp: string,
    serverName: string,
    serverCountry: string,
    serverDistance: real,
    latency: int,
    download: real,
    upload: real,
    testTime: Moment)

  datatype Row = Row(id: nat, rec: Record)

  /** The test_time column: the commit time as text. */
  function TestTime(r: Row): string {
    Format(r.rec.testTime)
  }

  /**
   * Rows as ORDER BY key DESC returns them: no key below a later one's. The
   * sort is stated for any text-valued key; the table's key is TestTime.
   */
  predicate SortedDesc<T>(s: seq<T>, key: T -> string) {
    forall i, j :: 0 <= i < j < |s| ==> !LexLess(key(s[i]), key(s[j]))
  }

  /** Place x in front of the first element whose key is not above its own. */
  function InsertDesc<T>(x: T, s: seq<T>, key: T -> string): seq<T> {
    if s == [] || !LexLess(key(x), key(s[0])) then [x] + s
    else [s[0]] + InsertDesc(x, s[1..], key)
  }

  /**
   * The sort SQLite performs for ORDER BY key DESC. SQLite leaves the order
   * of equal keys unspecified; this one puts the later element first.
   */
  function SortDesc<T>(s: seq<T>, key: T -> string): seq<T> {
    if s == [] then [] else InsertDesc(s[|s| - 1], SortDesc(s[..|s| - 1], key), key)
  }

  /** LIMIT n: a negative n means no bound, as in SQLite. */
  function Take<T>(s: seq<T>, limit: int): (r: seq<T>)
    ensures limit < 0 ==> r == s
    ensures 0 <= limit ==> |r| == (if limit < |s| then limit else |s|)
    ensures r == s[..|r|]
  {
    if limit < 0 || |s| <= limit then s else s[..limit]
  }

  /** SELECT ... ORDER BY test_time DESC LIMIT limit */
  function Query(rows: seq<Row>, limit: int): seq<Row> {
    Take(SortDesc(rows, TestTime), limit)
  }

  /** SELECT ... ORDER BY test_time DESC LIMIT 1, with sql.ErrNoRows as None. */
  function Latest(rows: seq<Row>): Option<Row> {
    var q := Query(rows, 1);
    if q == [] then None else Some(q[0])
  }

  // ---------------------------------------------------------------------------
  // Properties of the query

  /** On stored rows the text order is the time order. */
  lemma TextOrder(a: Row, b: Row)
    ensures LexLess(TestTime(a), TestTime(b)) <==> Before(a.rec.testTime, b.rec.testTime)
  {
    FormatOrder(a.rec.testTime, b.rec.testTime);
  }

  lemma {:induction false} InsertDescPermutes<T>(x: T, s: seq<T>, key: T -> string)
    ensures multiset(InsertDesc(x, s, key)) == multiset(s) + multiset{x}
    decreases |s|
  {
    if s != [] && LexLess(key(x), key(s[0])) {
      assert s == [s[0]] + s[1..];
      InsertDescPermutes(x, s[1..], key);
    }
  }

  lemma {:induction false} InsertDescSorted<T>(x: T, s: seq<T>, key: T -> string)
    requires SortedDesc(s, key)
    ensures SortedDesc(InsertDesc(x, s, key), key)
    decreases |s|
  {
    if s == [] {
    } else if !LexLess(key(x), key(s[0])) {
      var out := [x] + s;
      forall i, j | 0 <= i < j < |out|
        ensures !LexLess(key(out[i]), key(out[j]))
      {
        if i == 0 && j > 1 {
          NotLexLessTransitive(key(x), key(s[0]), key(s[j - 1]));
        }
      }
    } else {
      var tail := s[1..];
      InsertDescSorted(x, tail, key);
      InsertDescPermutes(x, tail, key);
      var rest := InsertDesc(x, tail, key);
      var out := [s[0]] + rest;
      LexLessAsymmetric(key(x), key(s[0]));
      forall j | 0 <= j < |rest|
        ensures !LexLess(key(s[0]), key(rest[j]))
      {
        var y := rest[j];
        assert y in multiset(rest);
        if y != x {
          assert y in multiset(tail);
          var k :| 0 <= k < |tail| && tail[k] == y;
          assert s[k + 1] == y;
        }
      }
      forall i, j | 0 <= i < j < |out|
        ensures !LexLess(key(out[i]), key(out[j]))
      {
        if i == 0 {
          assert out[j] == rest[j - 1];
        } else {
          assert out[i] == rest[i - 1] && out[j] == rest[j - 1];
        }
      }
    }
  }

  /** The sort is ordered and is a permutation of its input. */
  lemma {:induction false} SortDescCorrect<T>(s: seq<T>, key: T -> string)
    ensures SortedDesc(SortDesc(s, key), key)
    ensures multiset(SortDesc(s, key)) == multiset(s)
    ensures |SortDesc(s, key)| == |s|
    decreases |s|
  {
    if s != [] {
      var init := s[..|s| - 1];
      SortDescCorrect(init, key);
      InsertDescSorted(s[|s| - 1], SortDesc(init, key), key);
      InsertDescPermutes(s[|s| - 1], SortDesc(init, key), key);
      assert s == init + [s[|s| - 1]];
      assert |multiset(SortDesc(s, key))| == |multiset(s)|;
    }
  }

  /** The query returns min(limit, |rows|) stored rows, newest first. */
  lemma QueryCorrect(rows: seq<Row>, limit: int)
    ensures SortedDesc(Query(rows, limit), TestTime)
    ensures 0 <= limit ==> |Query(rows, limit)| == (if limit < |rows| then limit else |rows|)
    ensures limit < 0 ==> |Query(rows, limit)| == |rows|
    ensures forall i :: 0 <= i < |Query(rows, limit)| ==> Query(rows, limit)[i] in rows
  {
    SortDescCorrect(rows, TestTime);
    var s := SortDesc(rows, TestTime);
    forall i | 0 <= i < |Query(rows, limit)| ensures Query(rows, limit)[i] in rows {
      assert Query(rows, limit)[i] == s[i];
      assert s[i] in multiset(s);
    }
  }

  /** LIMIT on a sorted result keeps a sub-multiset, and nothing it drops has a higher key. */
  lemma {:induction false} TakeKeepsTop<T>(s: seq<T>, key: T -> string, limit: int)
    requires SortedDesc(s, key)
    ensures multiset(Take(s, limit)) <= multiset(s)
    ensures forall k, x :: 0 <= k < |Take(s, limit)| && x in multiset(s) - multiset(Take(s, limit)) ==>
              !LexLess(key(Take(s, limit)[k]), key(x))
  {
    var q := Take(s, limit);
    var n := |q|;
    assert s == q + s[n..];
    assert multiset(s) == multiset(q) + multiset(s[n..]);
    forall k, x | 0 <= k < n && x in multiset(s) - multiset(q)
      ensures !LexLess(key(q[k]), key(x))
    {
      assert x in multiset(s[n..]);
      var j :| 0 <= j < |s[n..]| && s[n..][j] == x;
      assert s[n + j] == x && q[k] == s[k];
    }
  }

  /**
   * The query returns the newest rows: a sub-multiset of the table such that
   * no row it leaves out is later than a row it returns.
   */
  lemma QueryKeepsNewest(rows: seq<Row>, limit: int)
    ensures multiset(Query(rows, limit)) <= multiset(rows)
    ensures forall k, x :: 0 <= k < |Query(rows, limit)| && x in multiset(rows) - multiset(Query(rows, limit)) ==>
              !Before(Query(rows, limit)[k].rec.testTime, x.rec.testTime)
  {
    SortDescCorrect(rows, TestTime);
    var s := SortDesc(rows, TestTime);
    TakeKeepsTop(s, TestTime, limit);
    var q := Query(rows, limit);
    forall k, x | 0 <= k < |q| && x in multiset(rows) - multiset(q)
      ensures !Before(q[k].rec.testTime, x.rec.testTime)
    {
      TextOrder(q[k], x);
    }
  }

  /** The LIMIT 1 query finds a row exactly when the table has one, and nothing is later. */
  lemma LatestIsNewest(rows: seq<Row>)
    ensures Latest(rows).Some? <==> rows != []
    ensures Latest(rows).Some? ==> Latest(rows).value in rows
    ensures Latest(rows).Some? ==> forall x :: x in rows ==> !Before(Latest(rows).value.rec.testTime, x.rec.testTime)
  {
    SortDescCorrect(rows, TestTime);
    var s := SortDesc(rows, TestTime);
    if rows != [] {
      assert s[0] in multiset(s);
      forall x | x in rows ensures !Before(s[0].rec.testTime, x.rec.testTime) {
        assert x in multiset(s);
        var k :| 0 <= k < |s| && s[k] == x;
        if k > 0 {
          assert !LexLess(TestTime(s[0]), TestTime(s[k]));
        } else {
          LexLessIrreflexive(TestTime(x));
        }
        TextOrder(s[0], x);
      }
    }
  }

  /** A row committed later than every other one is what the LIMIT 1 query returns. */
  lemma LatestAfterInsert(rows: seq<Row>, r: Row)
    requires forall x :: x in rows ==> Before(x.rec.testTime, r.rec.testTime)
    ensures Latest(rows + [r]) == Some(r)
  {
    var all := rows + [r];
    LatestIsNewest(all);
    assert r in all;
  }

  // ---------------------------------------------------------------------------
  // The table as mutable state

  datatype StoreError = NoSuchTable | ExecFailed

  class ResultStore {
    /** Whether speedtest_results has been created in the database file. */
    var tableExists: bool
    /** The rows in insertion order. */
    var rows: seq<Row>
    /** The AUTOINCREMENT counter: the largest id ever handed out, 0 before the first insert. */
    var seqNo: nat

    ghost predicate Valid()
      reads this
    {
      && (!tableExists ==> rows == [])
      && (forall i :: 0 <= i < |rows| ==> 1 <= rows[i].id <= seqNo)
      && (forall i, j :: 0 <= i < j < |rows| ==> rows[i].id < rows[j].id)
    }

    /** A database file that does not hold the table yet. */
    constructor ()
      ensures Valid()
      ensures !tableExists && rows == [] && seqNo == 0
    {
      tableExists := false;
      rows := [];
      seqNo := 0;
    }

    /**
     * CREATE TABLE IF NOT EXISTS speedtest_results (...). `fails` stands for an
     * engine error. On an existing table it changes nothing, so running it on
     * every start is safe.
     */
    method CreateTable(fails: bool) returns (ok: bool)
      requires Valid()
      modifies this
      ensures Valid()
      ensures ok == !fails
      ensures tableExists == (old(tableExists) || ok)
      ensures rows == old(rows) && seqNo == old(seqNo)
    {
      ok := !fails;
      if ok && !tableExists {
        tableExists := true;
      }
    }

    /**
     * INSERT INTO speedtest_results (...) VALUES (...). `fails` stands for an
     * engine error; a missing table is an error too. On success exactly one row
     * is appended, under the next id.
     */
    method Insert(rec: Record, fails: bool) returns (r: Result<nat, StoreError>)
      requires Valid()
      modifies this
      ensures Valid()
      ensures tableExists == old(tableExists)
      ensures r.Success? <==> old(tableExists) && !fails
      ensures !old(tableExists) ==> r == Failure(NoSuchTable)
      ensures r.Success? ==> r.value == old(seqNo) + 1
      ensures r.Success? ==> rows == old(rows) + [Row(old(seqNo) + 1, rec)] && seqNo == old(seqNo) + 1
      ensures r.Failure? ==> rows == old(rows) && seqNo == old(seqNo)
    {
      if !tableExists {
        return Failure(NoSuchTable);
      }
      if fails {
        return Failure(ExecFailed);
      }
      seqNo := seqNo + 1;
      rows := rows + [Row(seqNo, rec)];
      r := Success(seqNo);
    }
  }
}

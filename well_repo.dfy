/**
 * What the SQL statements of the well repository promise, as an in-memory
 * `wells` table: rows keyed by a SERIAL identity, a counter for the next
 * identity, and a logical clock standing for NOW().
 */
module WellRepo {
  import opened Entity

  /** Outcome of a single-row lookup: "no such row" is not a failure. */
  datatype Fetch = Found(well: Well) | Missing | FetchFailed(msg: string)

  /** Outcome of an UPDATE or DELETE: zero rows affected is its own case. */
  datatype Write = Written | NoRows | WriteFailed(msg: string)

  /** The error every statement returns while the store cannot be reached. */
  const Unavailable: string := "store unavailable"

  /** The error UPDATE reports when no row matched (DELETE's is "well not found", a `NotFound` outcome of the service). */
  const UpdateNoRows: string := "no rows affected (well not found)"

  /** The error a writing statement returns when the store refuses it although it can be read. */
  const WriteRejected: string := "write rejected"

  /** The messages of PostgreSQL's errors for a negative OFFSET or LIMIT; OFFSET is checked first. */
  const NegativeOffset: string := "OFFSET must not be negative"
  const NegativeLimit: string := "LIMIT must not be negative"

  /** Every row is stored under its own identity. */
  ghost predicate Keyed(rows: map<int, Well>)
  {
    forall id :: id in rows ==> rows[id].id == id
  }

  /** Creation times strictly decrease along `s`: newest first, no ties. */
  ghost predicate NewestFirst(s: seq<Well>)
  {
    forall i, j :: 0 <= i < j < |s| ==> s[i].createdAt > s[j].createdAt
  }

  /** The rows whose identities lie in 1..n, in descending order of identity. */
  function Newest(rows: map<int, Well>, n: int): (s: seq<Well>)
    requires Keyed(rows)
    ensures forall k :: 0 <= k < |s| ==> 1 <= s[k].id <= n && s[k].id in rows && rows[s[k].id] == s[k]
    ensures forall i, j :: 0 <= i < j < |s| ==> s[i].id > s[j].id
    decreases n
  {
    if n <= 0 then []
    else if n in rows then [rows[n]] + Newest(rows, n - 1)
    else Newest(rows, n - 1)
  }

  /** No row with an identity in 1..n is left out. */
  lemma {:induction false} NewestIsComplete(rows: map<int, Well>, n: int, id: int)
    requires Keyed(rows)
    requires id in rows && 1 <= id <= n
    ensures rows[id] in Newest(rows, n)
    decreases n
  {
    if id < n {
      NewestIsComplete(rows, n - 1, id);
    }
  }

  /** The `limit` elements of `s` that follow its first `offset` (LIMIT/OFFSET). */
  function Page<T>(s: seq<T>, limit: nat, offset: nat): (p: seq<T>)
    ensures |p| <= limit
    ensures |p| == if offset >= |s| then 0 else if |s| - offset < limit then |s| - offset else limit
    ensures forall k :: 0 <= k < |p| ==> p[k] == s[offset + k]
  {
    if offset >= |s| then []
    else if |s| - offset < limit then s[offset..]
    else s[offset..offset + limit]
  }

  /** A run of records taken in order from a newest-first sequence, with their creation times, is newest first. */
  lemma PageKeepsOrder(s: seq<Well>, offset: nat, p: seq<Well>)
    requires NewestFirst(s) && offset + |p| <= |s|
    requires forall k :: 0 <= k < |p| ==> p[k].createdAt == s[offset + k].createdAt
    ensures NewestFirst(p)
  {
    forall i, j | 0 <= i < j < |p|
      ensures p[i].createdAt > p[j].createdAt
    {
      assert s[offset + i].createdAt > s[offset + j].createdAt;
    }
  }

  /** The row as the listing query reads it back: id, name, location, pbuf, status, result and the two timestamps. */
  function Summary(w: Well): (s: Well)
    ensures s.id == w.id && s.name == w.name && s.location == w.location && s.pbuf == w.pbuf
    ensures s.status == w.status && s.result == w.result
    ensures s.createdAt == w.createdAt && s.updatedAt == w.updatedAt
    ensures SameColumns(s, Blank().(name := w.name, location := w.location, pbuf := w.pbuf, status := w.status))
  {
    Blank().(id := w.id, name := w.name, location := w.location, pbuf := w.pbuf,
             status := w.status, result := w.result,
             createdAt := w.createdAt, updatedAt := w.updatedAt)
  }

  class WellTable {
    var rows: map<int, Well>
    var nextId: int
    var clock: nat
    /** False while the store cannot be reached: every statement then fails and changes nothing. */
    var online: bool
    /** False while writes are refused: INSERT, UPDATE and DELETE then fail and change nothing; reads still work. */
    var writable: bool

    ghost predicate Valid()
      reads this
    {
      && nextId >= 1
      && (forall id :: id in rows ==>
            1 <= id < nextId && rows[id].id == id && rows[id].createdAt <= rows[id].updatedAt <= clock)
      && (forall i, j :: i in rows && j in rows && i < j ==> rows[i].createdAt < rows[j].createdAt)
    }

    /** An empty, reachable table; the first identity handed out is 1. */
    constructor ()
      ensures Valid() && rows == map[] && nextId == 1 && clock == 0 && online && writable
    {
      rows, nextId, clock, online, writable := map[], 1, 0, true, true;
    }

    /**
     * INSERT ... RETURNING id, created_at. The 22 data columns are stored as
     * given, `result` takes its default, both timestamps take the new clock
     * value; the caller's record comes back with its id and created_at filled in.
     */
    method Create(w: Well) returns (r: Result<Well>)
      requires Valid()
      modifies this
      ensures Valid() && online == old(online) && writable == old(writable)
      ensures !old(online) ==> r == Failure(Unavailable) && unchanged(this)
      ensures old(online) && !old(writable) ==> r == Failure(WriteRejected) && unchanged(this)
      ensures old(online) && old(writable) ==> r.Success?
      ensures r.Success? ==>
        && r.value == w.(id := old(nextId), createdAt := clock)
        && r.value.id > 0 && r.value.id !in old(rows)
        && clock == old(clock) + 1 && nextId == old(nextId) + 1
        && rows == old(rows)[r.value.id := r.value.(result := 0.0, updatedAt := clock)]
    {
      if !online {
        return Failure(Unavailable);
      }
      if !writable {
        return Failure(WriteRejected);
      }
      var id := nextId;
      clock := clock + 1;
      rows := rows[id := w.(id := id, result := 0.0, createdAt := clock, updatedAt := clock)];
      nextId := nextId + 1;
      r := Success(w.(id := id, createdAt := clock));
    }

    /** SELECT by identity. */
    method GetByID(id: int) returns (r: Fetch)
      requires Valid()
      ensures !online ==> r == FetchFailed(Unavailable)
      ensures online && id in rows ==> r == Found(rows[id])
      ensures online && id !in rows ==> r == Missing
      ensures r.Found? ==> r.well.id == id && id > 0
    {
      if !online {
        return FetchFailed(Unavailable);
      }
      if id in rows {
        r := Found(rows[id]);
      } else {
        r := Missing;
      }
    }

    /**
     * UPDATE ... WHERE id = w.id: replaces the 22 data columns and advances
     * updated_at; id, created_at and result are kept. Zero rows affected
     * when the identity is absent.
     */
    method Update(w: Well) returns (r: Write)
      requires Valid()
      modifies this
      ensures Valid() && online == old(online) && writable == old(writable) && nextId == old(nextId)
      ensures !old(online) ==> r == WriteFailed(Unavailable) && unchanged(this)
      ensures old(online) && !old(writable) ==> r == WriteFailed(WriteRejected) && unchanged(this)
      ensures old(online) && old(writable) && w.id !in old(rows) ==> r == NoRows && unchanged(this)
      ensures old(online) && old(writable) && w.id in old(rows) ==>
        && r == Written
        && clock == old(clock) + 1
        && rows == old(rows)[w.id := w.(createdAt := old(rows)[w.id].createdAt,
                                         result := old(rows)[w.id].result,
                                         updatedAt := clock)]
      ensures r == Written ==> SameColumns(rows[w.id], w) && rows[w.id].updatedAt > old(rows)[w.id].updatedAt
    {
      if !online {
        return WriteFailed(Unavailable);
      }
      if !writable {
        return WriteFailed(WriteRejected);
      }
      if w.id !in rows {
        return NoRows;
      }
      var existing := rows[w.id];
      clock := clock + 1;
      rows := rows[w.id := w.(createdAt := existing.createdAt, result := existing.result, updatedAt := clock)];
      r := Written;
    }

    /** DELETE ... WHERE id = id: removes exactly that row; zero rows affected when it is absent. */
    method Delete(id: int) returns (r: Write)
      requires Valid()
      modifies this
      ensures Valid() && online == old(online) && writable == old(writable)
      ensures nextId == old(nextId) && clock == old(clock)
      ensures !old(online) ==> r == WriteFailed(Unavailable) && unchanged(this)
      ensures old(online) && !old(writable) ==> r == WriteFailed(WriteRejected) && unchanged(this)
      ensures old(online) && old(writable) && id !in old(rows) ==> r == NoRows && unchanged(this)
      ensures old(online) && old(writable) && id in old(rows) ==> r == Written && rows == old(rows) - {id}
    {
      if !online {
        return WriteFailed(Unavailable);
      }
      if !writable {
        return WriteFailed(WriteRejected);
      }
      if id !in rows {
        return NoRows;
      }
      rows := rows - {id};
      r := Written;
    }

    /** Every row, ORDER BY created_at DESC. */
    function Ordered(): (s: seq<Well>)
      reads this
      requires Valid()
      ensures NewestFirst(s)
      ensures forall k :: 0 <= k < |s| ==> s[k].id in rows && rows[s[k].id] == s[k]
    {
      Newest(rows, nextId - 1)
    }

    /** Every row of the table is listed. */
    lemma OrderedIsComplete(id: int)
      requires Valid() && id in rows
      ensures rows[id] in Ordered()
    {
      NewestIsComplete(rows, nextId - 1, id);
    }

    /**
     * SELECT id, name, location, pbuf, status, result, created_at, updated_at
     * ORDER BY created_at DESC LIMIT limit OFFSET offset, and the loop that
     * scans each returned row into a fresh record.
     */
    method List(limit: int, offset: int) returns (r: Result<seq<Well>>)
      requires Valid()
      ensures !online ==> r == Failure(Unavailable)
      ensures online && offset < 0 ==> r == Failure(NegativeOffset)
      ensures online && offset >= 0 && limit < 0 ==> r == Failure(NegativeLimit)
      ensures r.Success? <==> online && limit >= 0 && offset >= 0
      ensures r.Success? ==> |r.value| <= limit && NewestFirst(r.value)
      ensures r.Success? ==>
        && |r.value| == (if offset >= |Ordered()| then 0
                         else if |Ordered()| - offset < limit then |Ordered()| - offset else limit)
        && forall k :: 0 <= k < |r.value| ==> r.value[k] == Summary(Ordered()[offset + k])
    {
      if !online {
        return Failure(Unavailable);
      }
      if offset < 0 {
        return Failure(NegativeOffset);
      }
      if limit < 0 {
        return Failure(NegativeLimit);
      }
      var selected := Page(Newest(rows, nextId - 1), limit, offset);
      var wells := ScanSummaries(selected);
      assert selected == Page(Ordered(), limit, offset);
      if wells != [] {
        PageKeepsOrder(Ordered(), offset, wells);
      }
      r := Success(wells);
    }
  }

  /** The scan loop of the listing query: each selected row is read back into a fresh record, in order. */
  method ScanSummaries(selected: seq<Well>) returns (wells: seq<Well>)
    ensures |wells| == |selected|
    ensures forall k :: 0 <= k < |wells| ==> wells[k] == Summary(selected[k])
  {
    wells := [];
    var i := 0;
    while i < |selected|
      invariant 0 <= i <= |selected|
      invariant |wells| == i
      invariant forall k :: 0 <= k < i ==> wells[k] == Summary(selected[k])
    {
      wells := wells + [Summary(selected[i])];
      i := i + 1;
    }
  }

  /**
   * The repository test's scenario: a well created on a reachable table is
   * found again under a nonzero identity, with the same name.
   */
  method CreateThenGetByID(table: WellTable, w: Well) returns (created: Well, found: Fetch)
    requires table.Valid() && table.online && table.writable
    modifies table
    ensures table.Valid()
    ensures created.id != 0 && created.name == w.name
    ensures found.Found? && found.well.name == created.name && found.well.id == created.id
  {
    var r := table.Create(w);
    created := r.value;
    found := table.GetByID(created.id);
  }
}

/** The local SQLite table of people and the static operations of
    PeopleManager that work on it. Each operation opens its own connection
    in the source; here one object stands for the table, and its methods are
    the manager's operations. */
module LocalStore {
  import opened Records

  /** A snapshot of the table: the rows by primary key, and the order in
      which a scan of the table yields their keys. */
  datatype Table = Table(rows: map<int, Person>, order: seq<int>)

  const Empty: Table := Table(map[], [])

  predicate Distinct(ks: seq<int>) {
    forall i, j :: 0 <= i < j < |ks| ==> ks[i] != ks[j]
  }

  /** Every row is stored under its own Id, and the scan order lists each
      key of the table exactly once. */
  predicate WellFormed(t: Table) {
    && (forall k :: k in t.rows ==> t.rows[k].Id == k)
    && Distinct(t.order)
    && (forall k :: k in t.rows ==> k in t.order)
    && (forall i :: 0 <= i < |t.order| ==> t.order[i] in t.rows)
  }

  /** No two records of `ps` share a primary key. */
  predicate DistinctIds(ps: seq<Person>) {
    forall i, j :: 0 <= i < j < |ps| ==> ps[i].Id != ps[j].Id
  }

  /** The records a scan of the table yields, in scan order. */
  function Rows(t: Table): (r: seq<Person>)
    requires WellFormed(t)
    ensures |r| == |t.order|
    ensures forall i :: 0 <= i < |r| ==> r[i].Id == t.order[i]
    ensures forall p :: p in r <==> p.Id in t.rows && t.rows[p.Id] == p
  {
    var r := seq(|t.order|, i requires 0 <= i < |t.order| => t.rows[t.order[i]]);
    assert forall k :: k in t.rows ==> r[IndexOf(t.order, k)] == t.rows[k];
    r
  }

  function IndexOf(ks: seq<int>, k: int): (i: nat)
    requires k in ks
    ensures i < |ks| && ks[i] == k
  {
    if ks[0] == k then 0 else 1 + IndexOf(ks[1..], k)
  }

  /** Each record with its birthday passed through the time-zone conversion,
      as GetPeopleAsync does before returning it. */
  function Localized(ps: seq<Person>, toLocalTime: Instant -> Instant): (r: seq<Person>)
    ensures |r| == |ps|
    ensures forall i :: 0 <= i < |ps| ==> r[i].Id == ps[i].Id && r[i].Name == ps[i].Name
  {
    seq(|ps|, i requires 0 <= i < |ps| => ps[i].(Birthday := toLocalTime(ps[i].Birthday)))
  }

  /** The table that inserting the records of `ps` one after another into an
      empty table builds, a later record overwriting an earlier one with the
      same key. */
  function TableOf(ps: seq<Person>): (t: Table)
    ensures forall k :: k in t.rows <==> k in t.order
    ensures |t.order| == |ps|
    ensures forall j :: 0 <= j < |ps| ==> t.order[j] == ps[j].Id
  {
    if ps == [] then Empty
    else
      var t := TableOf(ps[..|ps| - 1]);
      var p := ps[|ps| - 1];
      Table(t.rows[p.Id := p], t.order + [p.Id])
  }

  /** When the keys are distinct, inserting `ps` builds a well-formed table
      with one row per record, and a scan returns `ps` itself. */
  lemma {:induction false} TableOfHoldsExactly(ps: seq<Person>)
    requires DistinctIds(ps)
    ensures WellFormed(TableOf(ps))
    ensures |TableOf(ps).rows| == |ps|
    ensures Rows(TableOf(ps)) == ps
  {
    if ps != [] {
      var init, p := ps[..|ps| - 1], ps[|ps| - 1];
      assert DistinctIds(init);
      TableOfHoldsExactly(init);
      LastKeyIsFresh(ps);
      InsertFreshKey(TableOf(init), p);
      assert Rows(TableOf(ps)) == init + [p] == ps;
    }
  }

  /** With distinct keys, the last record's key is not among the keys the
      records before it build. */
  lemma LastKeyIsFresh(ps: seq<Person>)
    requires ps != [] && DistinctIds(ps)
    ensures ps[|ps| - 1].Id !in TableOf(ps[..|ps| - 1]).rows
  {
  }

  /** Inserting a record under a key not yet present keeps the table
      well-formed, adds one row, and adds the record at the end of a scan. */
  lemma InsertFreshKey(t: Table, p: Person)
    requires WellFormed(t)
    requires p.Id !in t.rows
    ensures WellFormed(Table(t.rows[p.Id := p], t.order + [p.Id]))
    ensures |t.rows[p.Id := p]| == |t.rows| + 1
    ensures Rows(Table(t.rows[p.Id := p], t.order + [p.Id])) == Rows(t) + [p]
  {
    var u := Table(t.rows[p.Id := p], t.order + [p.Id]);
    assert p.Id !in t.order;
    assert WellFormed(u);
    var a, b := Rows(u), Rows(t) + [p];
    assert |a| == |b|;
    forall i | 0 <= i < |a| ensures a[i] == b[i] {
      if i < |t.order| {
        assert u.order[i] == t.order[i] != p.Id;
      }
    }
  }

  /** UpdateLocalDataAsync: DeleteAll, then InsertAll. InsertAll runs in one
      transaction, so a key clash undoes all of its inserts, but not the
      DeleteAll before it. With distinct keys the table then holds exactly
      the given records, so the count comparison that follows succeeds;
      otherwise it is left empty. */
  function Reload(people: seq<Person>): (r: Table)
    ensures WellFormed(r)
    ensures DistinctIds(people) ==> |r.rows| == |people| && Rows(r) == people
    ensures !DistinctIds(people) ==> r == Empty
  {
    if DistinctIds(people) then
      TableOfHoldsExactly(people);
      TableOf(people)
    else Empty
  }

  /** UpsertPersonAsync. A nonzero Id selects `Update`, which rewrites the
      row with that key and matches nothing when there is none. Id 0 selects
      `Insert` under key 0, which fails when key 0 is taken. */
  function Upsert(t: Table, p: Person): (r: Result<Table, Fault>)
    ensures r.Err? <==> p.Id == 0 && 0 in t.rows
    ensures r.Err? ==> r.error == ConstraintViolation
    ensures r.Ok? ==> r.value.rows.Keys == t.rows.Keys + (if p.Id == 0 then {0} else {})
    ensures r.Ok? ==> forall k :: k in t.rows && k != p.Id ==> r.value.rows[k] == t.rows[k]
    ensures r.Ok? && p.Id in r.value.rows ==> r.value.rows[p.Id] == p
    ensures r.Ok? && p.Id != 0 ==> r.value.order == t.order
    ensures WellFormed(t) && r.Ok? ==> WellFormed(r.value)
  {
    if p.Id != 0 then
      Ok(if p.Id in t.rows then t.(rows := t.rows[p.Id := p]) else t)
    else if 0 in t.rows then
      Err(ConstraintViolation)
    else
      Ok(Table(t.rows[0 := p], t.order + [0]))
  }

  /** The scan order with key `x` taken out, the other keys in their order. */
  function Without(ks: seq<int>, x: int): (r: seq<int>)
    ensures forall k :: k in r <==> k in ks && k != x
    ensures Distinct(ks) ==> Distinct(r)
  {
    if ks == [] then []
    else
      var rest := Without(ks[1..], x);
      if ks[0] == x then rest
      else
        assert Distinct(ks) ==> ks[0] !in ks[1..];
        [ks[0]] + rest
  }

  /** Taking a key out keeps the order of the others: taking it out of two
      runs of keys one after the other gives the two shortened runs one
      after the other. */
  lemma {:induction false} WithoutAppend(a: seq<int>, b: seq<int>, x: int)
    ensures Without(a + b, x) == Without(a, x) + Without(b, x)
  {
    if a == [] {
      assert a + b == b;
    } else {
      assert (a + b)[0] == a[0];
      assert (a + b)[1..] == a[1..] + b;
      WithoutAppend(a[1..], b, x);
      if a[0] == x {
        assert Without(a + b, x) == Without(a[1..] + b, x);
      } else {
        assert Without(a + b, x) == [a[0]] + Without(a[1..] + b, x);
        assert Without(a, x) == [a[0]] + Without(a[1..], x);
      }
    }
  }

  /** The refresh of the summary page (present only as commented-out code):
      when the local row count differs from the remote count, the local table
      is reloaded from the remote records; otherwise it is kept. A reload
      from records with distinct keys holds exactly those records; one from
      records with a repeated key leaves the table empty. */
  function Refresh(t: Table, remote: seq<Person>): (r: Table)
    ensures |t.rows| == |remote| ==> r == t
    ensures |t.rows| != |remote| ==> WellFormed(r)
    ensures |t.rows| != |remote| && DistinctIds(remote) ==> Rows(r) == remote
    ensures |t.rows| != |remote| && !DistinctIds(remote) ==> r == Empty
  {
    if |t.rows| == |remote| then t else Reload(remote)
  }

  /** Running the refresh a second time changes nothing, whatever the keys:
      it either kept the table, or reloaded it, and a second reload gives the
      same table. The second run skips the reload only when the keys are
      distinct (as `Reload` states); with a repeated key every run reloads,
      and raises, again. */
  lemma RefreshIdempotent(t: Table, remote: seq<Person>)
    ensures Refresh(Refresh(t, remote), remote) == Refresh(t, remote)
  {
  }

  /** The local table and the static operations over it. */
  class PeopleManager {
    var rows: map<int, Person>
    var order: seq<int>

    function Snapshot(): Table
      reads this
    {
      Table(rows, order)
    }

    ghost predicate Valid()
      reads this
    {
      WellFormed(Snapshot())
    }

    /** A database file created afresh, with an empty Person table. */
    constructor ()
      ensures Valid() && Snapshot() == Empty
    {
      rows, order := map[], [];
    }

    /** CheckPersonCountAsync: the number of local rows equals the number of
        given records. Only reads the table. */
    method CheckPersonCount(people: seq<Person>) returns (same: bool)
      ensures same <==> |rows| == |people|
    {
      same := |rows| == |people|;
    }

    /** UpdateLocalDataAsync: empty the table, then insert every record. */
    method UpdateLocalData(people: seq<Person>) returns (r: Outcome<Fault>)
      modifies this
      ensures Valid()
      ensures r == if DistinctIds(people) then Pass else Fail(ConstraintViolation)
      ensures Snapshot() == Reload(people)
    {
      rows, order := map[], [];
      var i := 0;
      while i < |people|
        invariant 0 <= i <= |people|
        invariant DistinctIds(people[..i])
        invariant Snapshot() == TableOf(people[..i])
      {
        var p := people[i];
        if p.Id in rows {
          // the transaction of InsertAll rolls back to the emptied table
          var j :| 0 <= j < i && order[j] == p.Id;
          assert people[j].Id == people[i].Id;
          rows, order := map[], [];
          return Fail(ConstraintViolation);
        }
        rows, order := rows[p.Id := p], order + [p.Id];
        assert people[..i + 1][..i] == people[..i];
        i := i + 1;
      }
      assert people[..i] == people;
      TableOfHoldsExactly(people);
      r := Pass;
    }

    /** GetPeopleAsync: one record per row in scan order, each birthday
        converted to local time. */
    method GetPeople(toLocalTime: Instant -> Instant) returns (people: seq<Person>)
      requires Valid()
      ensures people == Localized(Rows(Snapshot()), toLocalTime)
    {
      ghost var scan := Rows(Snapshot());
      people := [];
      for i := 0 to |order|
        invariant |people| == i
        invariant forall j :: 0 <= j < i ==> people[j] == scan[j].(Birthday := toLocalTime(scan[j].Birthday))
      {
        var person := rows[order[i]];
        people := people + [person.(Birthday := toLocalTime(person.Birthday))];
      }
    }

    /** UpsertPersonAsync: update by a nonzero key, insert under key 0. */
    method UpsertPerson(person: Person) returns (r: Outcome<Fault>)
      requires Valid()
      modifies this
      ensures Valid()
      ensures match Upsert(old(Snapshot()), person)
              case Ok(t) => r == Pass && Snapshot() == t
              case Err(e) => r == Fail(e) && Snapshot() == old(Snapshot())
    {
      if person.Id != 0 {
        if person.Id in rows {
          rows := rows[person.Id := person];
        }
      } else {
        if 0 in rows {
          return Fail(ConstraintViolation);
        }
        rows, order := rows[0 := person], order + [0];
      }
      r := Pass;
    }

    /** DeletePersonAsync: delete the row whose key is `person.Id`; the other
        fields of `person` play no part. */
    method DeletePerson(person: Person)
      requires Valid()
      modifies this
      ensures Valid()
      ensures person.Id !in rows
      ensures forall k :: k in old(rows) && k != person.Id ==> k in rows && rows[k] == old(rows)[k]
      ensures rows.Keys == old(rows).Keys - {person.Id}
      ensures order == Without(old(order), person.Id)
    {
      rows := rows - {person.Id};
      order := Without(order, person.Id);
      assert forall i :: 0 <= i < |order| ==> order[i] in order;
    }

    /** DeletePeopleAsync: the table is left empty. */
    method DeletePeople()
      modifies this
      ensures Valid() && Snapshot() == Empty
    {
      rows, order := map[], [];
    }
  }
}

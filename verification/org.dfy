/** The org chart of parse.py: Person objects built from roster rows, the
    Company that hires them, looks them up by email and links each to its
    supervisor, and the transitive subordinate closure. */
module Org {
  import opened Records
  import opened Strings
  import opened Reach
  import CsvRows

  // Roster columns a Person is built from.
  const FullNameKey: string := "Full Name"
  const EmailKey: string := "Company email"
  const ReportsToKey: string := "Reports To Email"
  const TitleKey: string := "Job Title"
  const DepartmentKey: string := "Departments"

  /** The roster columns in the order the constructor reads them. */
  const PersonKeys: seq<string> := [FullNameKey, EmailKey, ReportsToKey, TitleKey, DepartmentKey]

  /** data[key] as a string: KeyError when the column is absent. */
  function PersonField(data: Record, key: string): Result<string>
  {
    if key !in data then Err(MissingKey(key))
    else match data[key]
      case Text(s) => Ok(s)
      case Columns(_) => Err(NotText(key))
  }

  /** The email of `p` equals `email` up to case. */
  predicate EmailMatches(p: Person, email: string)
  {
    Lower(p.email) == Lower(email)
  }

  /** The position of the first person whose email matches, in hire order. */
  function FirstMatch(people: seq<Person>, email: string): (r: Option<nat>)
    ensures r.None? <==> forall i :: 0 <= i < |people| ==> !EmailMatches(people[i], email)
    ensures r.Some? ==> r.value < |people| && EmailMatches(people[r.value], email)
    ensures r.Some? ==> forall j :: 0 <= j < r.value ==> !EmailMatches(people[j], email)
    decreases |people|
  {
    if people == [] then None
    else if EmailMatches(people[0], email) then Some(0)
    else match FirstMatch(people[1..], email)
      case None => None
      case Some(i) => Some(i + 1)
  }

  /** What Company.find returns for a roster in hire order. */
  function Lookup(people: seq<Person>, email: string): Option<Person>
  {
    match FirstMatch(people, email)
    case None => None
    case Some(i) => Some(people[i])
  }

  /** find gives None exactly when nobody's email matches up to case, and
      otherwise a hired person whose email matches. */
  lemma LookupSpec(people: seq<Person>, email: string)
    ensures Lookup(people, email).None? <==> forall p :: p in people ==> !EmailMatches(p, email)
    ensures Lookup(people, email).Some? ==>
              Lookup(people, email).value in people && EmailMatches(Lookup(people, email).value, email)
  {
  }

  /** With emails distinct up to case, any casing of a hired person's email
      finds that person. */
  lemma LookupIgnoresCase(people: seq<Person>, p: Person, email: string)
    requires forall i, j :: (0 <= i < |people| && 0 <= j < |people| &&
               Lower(people[i].email) == Lower(people[j].email)) ==> people[i] == people[j]
    requires p in people && Lower(email) == Lower(p.email)
    ensures Lookup(people, email) == Some(p)
  {
    var i := FirstMatch(people, email).value;
    var j :| 0 <= j < |people| && people[j] == p;
    assert Lower(people[i].email) == Lower(people[j].email);
  }

  /** The people of `hires`, in order, whose supervisor email resolves to
      `supervisor`: what organize appends to that supervisor. */
  function ReportsTo(staff: seq<Person>, hires: seq<Person>, supervisor: Person): seq<Person>
    decreases |hires|
  {
    if hires == [] then []
    else
      var e := hires[|hires| - 1];
      ReportsTo(staff, hires[..|hires| - 1], supervisor)
        + (if Lookup(staff, e.reportsTo) == Some(supervisor) then [e] else [])
  }

  /** A supervisor's new reports are hires, no more of them than were hired,
      each resolving to that supervisor. */
  lemma {:induction false} ReportsToMembers(staff: seq<Person>, hires: seq<Person>, supervisor: Person)
    ensures |ReportsTo(staff, hires, supervisor)| <= |hires|
    ensures forall e :: e in ReportsTo(staff, hires, supervisor) ==>
              e in hires && Lookup(staff, e.reportsTo) == Some(supervisor)
    decreases |hires|
  {
    if hires != [] {
      var init := hires[..|hires| - 1];
      ReportsToMembers(staff, init, supervisor);
      assert hires == init + [hires[|hires| - 1]];
    }
  }

  /** A person is appended to a supervisor once per time it was hired when
      its supervisor email resolves to that supervisor, and never otherwise. */
  lemma {:induction false} ReportsToCount(staff: seq<Person>, hires: seq<Person>, supervisor: Person, e: Person)
    ensures multiset(ReportsTo(staff, hires, supervisor))[e] ==
              if Lookup(staff, e.reportsTo) == Some(supervisor) then multiset(hires)[e] else 0
    decreases |hires|
  {
    if hires != [] {
      var init := hires[..|hires| - 1];
      ReportsToCount(staff, init, supervisor, e);
      assert hires == init + [hires[|hires| - 1]];
    }
  }

  /** The direct-report lists of `staff`, as a value. */
  ghost function Chart(staff: set<Person>): map<Person, seq<Person>>
    reads staff
  {
    map p | p in staff :: p.directReports
  }

  /** Everybody's direct reports are in `staff`. */
  ghost predicate StaffClosed(staff: set<Person>)
    reads staff
  {
    forall p, q :: p in staff && q in p.directReports ==> q in staff
  }

  /** `r` is the subordinate closure of `boss` in the chart `g`, where `d0`
      was the boss's direct-report list: it extends d0, adds nobody twice
      and nobody already in d0, and holds exactly those reached from boss. */
  ghost predicate IsClosure(g: map<Person, seq<Person>>, boss: Person, d0: seq<Person>, r: seq<Person>)
  {
    && d0 <= r
    && (forall k :: |d0| <= k < |r| ==> r[k] !in r[..k])
    && (forall p :: p in r ==> p in g && Reaches(g, boss, p))
    && (forall p :: p in g && Reaches(g, boss, p) ==> p in r)
  }

  function Elems(people: seq<Person>): set<Person>
  {
    set p | p in people
  }

  /** Adding a new member of `staff` shrinks the set of those still missing. */
  lemma Grow(staff: set<Person>, people: seq<Person>, e: Person)
    requires e in staff && e !in people
    ensures staff - Elems(people + [e]) < staff - Elems(people)
  {
    assert e in staff - Elems(people);
  }

  /** A list that extends d0 by people new to it has as many distinct
      members as d0 plus one per newcomer. */
  lemma {:induction false} NewcomersCounted(d0: seq<Person>, r: seq<Person>)
    requires d0 <= r
    requires forall k :: |d0| <= k < |r| ==> r[k] !in r[..k]
    ensures |Elems(r)| == |Elems(d0)| + |r| - |d0|
    decreases |r|
  {
    if |r| > |d0| {
      var init := r[..|r| - 1];
      assert d0 <= init;
      assert forall k :: |d0| <= k < |init| ==> init[..k] == r[..k];
      NewcomersCounted(d0, init);
      assert r == init + [r[|r| - 1]];
      assert Elems(r) == Elems(init) + {r[|r| - 1]};
      assert r[|r| - 1] !in Elems(init) by {
        assert r[..|r| - 1] == init;
      }
    } else {
      assert r == d0;
    }
  }

  /** The raw rows of a list of people, in order. */
  function RawData(people: seq<Person>): (rows: seq<Record>)
    ensures |rows| == |people| && forall k :: 0 <= k < |people| ==> rows[k] == people[k].rawData
    decreases |people|
  {
    if people == [] then [] else RawData(people[..|people| - 1]) + [people[|people| - 1].rawData]
  }

  /** With no direct reports, nobody is reached. */
  lemma EmptyClosure(g: map<Person, seq<Person>>, boss: Person)
    requires boss in g && g[boss] == []
    ensures IsClosure(g, boss, [], [])
  {
    ReachableAllInClosed(g, boss, {});
  }

  /** A list extending d0 = g[boss] without repeats, holding only people
      reached from boss and closed under the edges, is the closure. */
  lemma ClosureOfFixpoint(g: map<Person, seq<Person>>, boss: Person, d0: seq<Person>, r: seq<Person>)
    requires boss in g && g[boss] == d0 && d0 <= r
    requires forall k :: |d0| <= k < |r| ==> r[k] !in r[..k]
    requires forall p :: p in r ==> p in g && Reaches(g, boss, p)
    requires forall x, y :: x in r && x in g && y in g[x] ==> y in r
    ensures IsClosure(g, boss, d0, r)
  {
    assert forall y :: y in g[boss] ==> y in Elems(r);
    assert ClosedIn(g, Elems(r));
    ReachableAllInClosed(g, boss, Elems(r));
  }

  /** When the direct reports d0 = g[boss] are already closed under the
      edges, the closure adds nobody. */
  lemma ClosureOfClosedStart(g: map<Person, seq<Person>>, boss: Person, d0: seq<Person>, r: seq<Person>)
    requires boss in g && g[boss] == d0
    requires forall x, y :: x in d0 && x in g && y in g[x] ==> y in d0
    requires IsClosure(g, boss, d0, r)
    ensures r == d0
  {
    assert ClosedIn(g, Elems(d0));
    ReachableAllInClosed(g, boss, Elems(d0));
    NewcomersCounted(d0, r);
    assert Elems(r) <= Elems(d0);
    var extra := Elems(d0) - Elems(r);
    assert Elems(d0) == Elems(r) + extra && Elems(r) * extra == {};
    assert |r| == |d0|;
    assert r[..|d0|] == d0;
  }

  class Person {
    const fullName: string
    const email: string
    const reportsTo: string
    const title: string
    const department: string
    const rawData: Record
    var directReports: seq<Person>

    constructor (fullName: string, email: string, reportsTo: string, title: string, department: string, rawData: Record)
      ensures this.fullName == fullName && this.email == email && this.reportsTo == reportsTo
      ensures this.title == title && this.department == department && this.rawData == rawData
      ensures directReports == []
    {
      this.fullName := fullName;
      this.email := email;
      this.reportsTo := reportsTo;
      this.title := title;
      this.department := department;
      this.rawData := rawData;
      directReports := [];
    }

    /** Person(data): reads the five roster columns in order; the first that
        is missing raises KeyError. */
    static method FromRecord(data: Record) returns (r: Result<Person>)
      ensures r.Ok? <==> forall i :: 0 <= i < |PersonKeys| ==> PersonField(data, PersonKeys[i]).Ok?
      ensures r.Err? ==> exists i :: (0 <= i < |PersonKeys| && PersonField(data, PersonKeys[i]) == Err(r.error) &&
                forall j :: 0 <= j < i ==> PersonField(data, PersonKeys[j]).Ok?)
      ensures r.Ok? ==> fresh(r.value) && r.value.directReports == [] && r.value.rawData == data
      ensures r.Ok? ==> PersonField(data, FullNameKey) == Ok(r.value.fullName)
      ensures r.Ok? ==> PersonField(data, EmailKey) == Ok(r.value.email)
      ensures r.Ok? ==> PersonField(data, ReportsToKey) == Ok(r.value.reportsTo)
      ensures r.Ok? ==> PersonField(data, TitleKey) == Ok(r.value.title)
      ensures r.Ok? ==> PersonField(data, DepartmentKey) == Ok(r.value.department)
    {
      assert PersonKeys[0] == FullNameKey && PersonKeys[1] == EmailKey && PersonKeys[2] == ReportsToKey;
      assert PersonKeys[3] == TitleKey && PersonKeys[4] == DepartmentKey;
      var fullName := PersonField(data, FullNameKey);
      if fullName.Err? { return Err(fullName.error); }
      var email := PersonField(data, EmailKey);
      if email.Err? { return Err(email.error); }
      var reportsTo := PersonField(data, ReportsToKey);
      if reportsTo.Err? { return Err(reportsTo.error); }
      var title := PersonField(data, TitleKey);
      if title.Err? { return Err(title.error); }
      var department := PersonField(data, DepartmentKey);
      if department.Err? { return Err(department.error); }
      var p := new Person(fullName.value, email.value, reportsTo.value, title.value, department.value, data);
      return Ok(p);
    }

    method AddDirectReport(employee: Person)
      modifies this
      ensures directReports == old(directReports) + [employee]
    {
      directReports := directReports + [employee];
    }

    /** has_direct_reports: whether anybody has been appended yet. */
    function HasDirectReports(): (r: bool)
      reads this
      ensures r <==> directReports != []
    {
      |directReports| > 0
    }

    /** all_subordinates(return_people_objects=False): the closure as above,
        then each subordinate's raw row, in the same order. */
    method AllSubordinateRecords(ghost staff: set<Person>) returns (records: seq<Record>)
      requires this in staff && StaffClosed(staff)
      modifies this
      ensures IsClosure(old(Chart(staff)), this, old(directReports), directReports)
      ensures old(directReports) == [] ==> directReports == []
      ensures StaffClosed(staff)
      ensures records == RawData(directReports)
    {
      var output := AllSubordinates(staff);
      if |output| == 0 {
        // the early return hands back the (empty) list of people itself
        return [];
      }
      var convertedOutput: seq<Record> := [];
      var k := 0;
      while k < |output|
        invariant 0 <= k <= |output|
        invariant convertedOutput == RawData(output[..k])
      {
        assert output[..k + 1][..k] == output[..k];
        convertedOutput := convertedOutput + [output[k].rawData];
        k := k + 1;
      }
      assert output[..k] == output;
      records := convertedOutput;
    }

    /** subordinates_to_csv without the file write: the rows written (the
        raw rows of the closure, then this person's own, in the roster's
        column order) and the name of the file. */
    method SubordinatesToCsv(ghost staff: set<Person>) returns (fileName: string, table: Result<seq<seq<Field>>>)
      requires this in staff && StaffClosed(staff)
      modifies this
      ensures IsClosure(old(Chart(staff)), this, old(directReports), directReports)
      ensures old(directReports) == [] ==> directReports == []
      ensures table == CsvRows.Exported(RawData(directReports) + [rawData], true)
      ensures fileName == CsvFileName(fullName)
    {
      var subs := AllSubordinateRecords(staff);
      subs := subs + [rawData];
      table := CsvRows.ListToCsv(subs, true);
      fileName := CsvFileName(fullName);
    }

    /** What every step of all_subordinates keeps: the list extends the
        original direct reports d0 without repeats, holds only people of
        `staff` reached from this person in the chart g taken at the start,
        and nobody else's direct reports have changed. */
    ghost predicate Discovered(staff: set<Person>, g: map<Person, seq<Person>>, d0: seq<Person>)
      reads this, staff
    {
      && d0 <= directReports
      && (forall k :: |d0| <= k < |directReports| ==> directReports[k] !in directReports[..k])
      && (forall p :: p in directReports ==> p in staff && Reaches(g, this, p))
      && (forall p :: p in staff && p != this ==> p in g && p.directReports == g[p])
    }

    /** all_subordinates: grows this person's own direct-report list (the
        list the source aliases as its output) until no pass adds anybody,
        and returns it. `staff` is any set of people holding this person and
        closed under direct reports, such as the whole roster. */
    method AllSubordinates(ghost staff: set<Person>) returns (r: seq<Person>)
      requires this in staff && StaffClosed(staff)
      modifies this
      ensures r == directReports
      ensures IsClosure(old(Chart(staff)), this, old(directReports), r)
      ensures r == [] <==> !old(HasDirectReports())
      ensures forall p, q :: p in r && q in p.directReports ==> q in r
      ensures StaffClosed(staff)
      ensures old(forall p, q :: p in directReports && q in p.directReports ==> q in directReports) ==>
                r == old(directReports)
    {
      ghost var g := Chart(staff);
      ghost var d0 := directReports;
      assert forall p, q :: p in g && q in g[p] ==> q in staff;
      if |directReports| == 0 {
        EmptyClosure(g, this);
        return directReports;
      }
      forall p | p in directReports
        ensures p in staff && Reaches(g, this, p)
      {
        ReachesEdge(g, this, p);
      }
      while true
        invariant Discovered(staff, g, d0)
        decreases staff - Elems(directReports)
      {
        var addedNew := OnePass(staff, g, d0);
        if !addedNew {
          break;
        }
      }
      r := directReports;
      forall x, y | x in r && x in g && y in g[x]
        ensures y in r
      {
        if x != this {
          assert y in x.directReports;
        }
      }
      ClosureOfFixpoint(g, this, d0, r);
      if forall x, y :: x in d0 && x in g && y in g[x] ==> y in d0 {
        ClosureOfClosedStart(g, this, d0, r);
      }
    }

    /** One pass of the `while True` loop: the `for subordinate in output`
        loop, which also visits the people appended during the pass. */
    method OnePass(ghost staff: set<Person>, ghost g: map<Person, seq<Person>>, ghost d0: seq<Person>)
      returns (addedNew: bool)
      requires this in staff && this in g && (forall p, q :: p in g && q in g[p] ==> q in staff)
      requires Discovered(staff, g, d0)
      modifies this
      ensures Discovered(staff, g, d0)
      ensures old(directReports) <= directReports
      ensures forall p, q :: p in directReports && q in p.directReports ==> q in directReports
      ensures addedNew <==> directReports != old(directReports)
      ensures addedNew ==> staff - Elems(directReports) < old(staff - Elems(directReports))
    {
      addedNew := false;
      var i := 0;
      while i < |directReports|
        invariant 0 <= i <= |directReports|
        invariant Discovered(staff, g, d0)
        invariant old(directReports) <= directReports
        invariant forall k, q :: 0 <= k < i && q in directReports[k].directReports ==> q in directReports
        invariant addedNew <==> directReports != old(directReports)
        invariant addedNew ==> staff - Elems(directReports) < old(staff - Elems(directReports))
        decreases staff - Elems(directReports), |directReports| - i
      {
        var subordinate := directReports[i];
        ghost var before := directReports;
        assert forall k, q :: 0 <= k < i && q in directReports[k].directReports ==> q in before;
        var added := AddUnseenReports(subordinate, staff, g, d0);
        assert forall k :: 0 <= k <= i ==> directReports[k] == before[k];
        forall k, q | 0 <= k <= i && q in directReports[k].directReports
          ensures q in directReports
        {
          if directReports[k] != this && k < i {
            assert q in before;
          }
        }
        addedNew := addedNew || added;
        i := i + 1;
      }
    }

    /** The inner `for employee in subordinate.direct_reports` loop: appends
        each report of `subordinate` not yet in the list. */
    method AddUnseenReports(subordinate: Person, ghost staff: set<Person>, ghost g: map<Person, seq<Person>>, ghost d0: seq<Person>)
      returns (added: bool)
      requires this in staff && this in g && (forall p, q :: p in g && q in g[p] ==> q in staff)
      requires subordinate in directReports
      requires Discovered(staff, g, d0)
      modifies this
      ensures Discovered(staff, g, d0)
      ensures old(directReports) <= directReports
      ensures forall q :: q in subordinate.directReports ==> q in directReports
      ensures added <==> directReports != old(directReports)
      ensures added ==> staff - Elems(directReports) < old(staff - Elems(directReports))
    {
      added := false;
      var j := 0;
      while j < |subordinate.directReports|
        invariant 0 <= j
        invariant subordinate in directReports
        invariant Discovered(staff, g, d0)
        invariant old(directReports) <= directReports
        invariant forall t :: 0 <= t < j && t < |subordinate.directReports| ==> subordinate.directReports[t] in directReports
        invariant added <==> directReports != old(directReports)
        invariant added ==> staff - Elems(directReports) < old(staff - Elems(directReports))
        decreases staff - Elems(directReports), |subordinate.directReports| - j
      {
        var employee := subordinate.directReports[j];
        if employee !in directReports {
          assert subordinate != this;
          ReachesStep(g, this, subordinate, employee);
          AppendUnseen(employee, staff, g, d0);
          added := true;
        }
        j := j + 1;
      }
    }

    /** `output.append(employee)` for a person reached from this one and not
        yet in the list. */
    method AppendUnseen(employee: Person, ghost staff: set<Person>, ghost g: map<Person, seq<Person>>, ghost d0: seq<Person>)
      requires employee in staff && employee !in directReports && Reaches(g, this, employee)
      requires Discovered(staff, g, d0)
      modifies this
      ensures directReports == old(directReports) + [employee]
      ensures Discovered(staff, g, d0)
      ensures staff - Elems(directReports) < old(staff - Elems(directReports))
    {
      Grow(staff, directReports, employee);
      ghost var before := directReports;
      directReports := directReports + [employee];
      forall k | |d0| <= k < |directReports|
        ensures directReports[k] !in directReports[..k]
      {
        if k < |before| {
          assert directReports[..k] == before[..k];
        } else {
          assert directReports[..k] == before;
        }
      }
      forall p | p in directReports
        ensures p in staff && Reaches(g, this, p)
      {
        if p != employee {
          assert p in before;
        }
      }
    }
  }

  class Company {
    var employees: seq<Person>

    constructor ()
      ensures employees == []
    {
      employees := [];
    }

    method Hire(employee: Person)
      modifies this
      ensures employees == old(employees) + [employee]
    {
      employees := employees + [employee];
    }

    /** The first employee, in hire order, whose email equals `email` up to
        case; None when nobody matches. */
    method Find(email: string) returns (r: Option<Person>)
      ensures r == Lookup(employees, email)
    {
      var i := 0;
      while i < |employees|
        invariant 0 <= i <= |employees|
        invariant forall j :: 0 <= j < i ==> !EmailMatches(employees[j], email)
      {
        if Lower(employees[i].email) == Lower(email) {
          return Some(employees[i]);
        }
        i := i + 1;
      }
      return None;
    }

    /** `supervisor.add_direct_report(employee)` when find resolved a
        supervisor, and nothing otherwise. */
    method LinkToSupervisor(employee: Person, supervisor: Option<Person>)
      requires supervisor.Some? ==> supervisor.value in employees
      modifies employees
      ensures forall q :: q in employees ==>
                q.directReports == old(q.directReports) + (if supervisor == Some(q) then [employee] else [])
    {
      if supervisor.Some? {
        supervisor.value.AddDirectReport(employee);
      }
    }

    /** Appends every employee, in hire order, to the direct reports of the
        supervisor its supervisor email resolves to. */
    method Organize()
      modifies employees
      ensures forall q :: q in employees ==> q.directReports == old(q.directReports) + ReportsTo(employees, employees, q)
    {
      ghost var start := map q | q in employees :: q.directReports;
      var i := 0;
      while i < |employees|
        invariant 0 <= i <= |employees|
        invariant Linked(start, i)
      {
        LinkEmployee(start, i);
        i := i + 1;
      }
      assert employees[..i] == employees;
    }

    /** The first i employees have been appended to their supervisors, on
        top of the direct reports `start` recorded before organize. */
    ghost predicate Linked(start: map<Person, seq<Person>>, i: nat)
      reads this, employees
      requires i <= |employees|
    {
      forall q :: q in employees ==> q in start && q.directReports == start[q] + ReportsTo(employees, employees[..i], q)
    }

    /** One turn of organize's loop: resolve employee i's supervisor and
        append the employee to it. */
    method LinkEmployee(ghost start: map<Person, seq<Person>>, i: nat)
      requires i < |employees| && Linked(start, i)
      modifies employees
      ensures Linked(start, i + 1)
    {
      var employee := employees[i];
      var supervisor := Find(employee.reportsTo);
      assert employees[..i + 1] == employees[..i] + [employee];
      label Before:
      LinkToSupervisor(employee, supervisor);
      forall q | q in employees
        ensures q.directReports == start[q] + ReportsTo(employees, employees[..i + 1], q)
      {
        ReportsToSnoc(employees, employees[..i], employee, q);
        assert q.directReports == old@Before(q.directReports) + (if supervisor == Some(q) then [employee] else []);
      }
    }
  }

  // -----------------------------------------------------------------------
  // subordinates_to_csv as written: the list aliasing of parse.py:51-53
  // -----------------------------------------------------------------------

  /** An element of a Python list: a person or a raw row. */
  datatype Entry = PersonEntry(person: Person) | RowEntry(row: Record)

  /** A Python list object, shared by whoever holds it. */
  class PyList {
    var items: seq<Entry>

    constructor (items: seq<Entry>)
      ensures this.items == items
    {
      this.items := items;
    }
  }

  function RowEntries(rows: seq<Record>): (entries: seq<Entry>)
    ensures |entries| == |rows| && forall k :: 0 <= k < |rows| ==> entries[k] == RowEntry(rows[k])
    decreases |rows|
  {
    if rows == [] then [] else RowEntries(rows[..|rows| - 1]) + [RowEntry(rows[|rows| - 1])]
  }

  /** The list subordinates_to_csv appends the person's own row to, as the
      source is written. `reports` is the person's direct_reports list object,
      taken to hold its closure already, so that the fixpoint loop adds
      nobody; the closure computation itself is abstracted away, and
      `subordinateRows` stands for the raw rows of the people in that list
      without being tied to them. When the list is empty, all_subordinates
      returns that very list (the early return of `output`, which aliases
      direct_reports); otherwise it returns a new list of rows. The own row
      goes into whichever list came back. */
  method ExportListAsWritten(reports: PyList, subordinateRows: seq<Record>, rawData: Record) returns (subs: PyList)
    modifies reports
    ensures old(reports.items) == [] ==> subs == reports && reports.items == [RowEntry(rawData)]
    ensures old(reports.items) != [] ==>
              fresh(subs) && reports.items == old(reports.items) && subs.items == RowEntries(subordinateRows) + [RowEntry(rawData)]
  {
    var output := reports;
    if |output.items| == 0 {
      subs := output;
    } else {
      subs := new PyList(RowEntries(subordinateRows));
    }
    subs.items := subs.items + [RowEntry(rawData)];
  }

  /** Exporting a person without direct reports, as written, leaves that
      person's direct_reports holding its own raw row: a non-person that
      has_direct_reports then counts, and that the next closure walking
      through this person would fail on. */
  method LeafExportAsWritten(rawData: Record) returns (reportsAfter: seq<Entry>)
    ensures reportsAfter == [RowEntry(rawData)]
    ensures |reportsAfter| > 0 && !reportsAfter[0].PersonEntry?
  {
    var reports := new PyList([]);
    var subs := ExportListAsWritten(reports, [], rawData);
    reportsAfter := reports.items;
  }

  // -----------------------------------------------------------------------
  // The three-person chain: A at the top, B reports to A, C reports to B
  // -----------------------------------------------------------------------

  /** Hires A, B and C, in that order, and organizes them. */
  method BuildChain(rowA: Record, rowB: Record, rowC: Record) returns (a: Person, b: Person, c: Person)
    ensures fresh(a) && fresh(b) && fresh(c)
    ensures a.directReports == [b] && b.directReports == [c] && c.directReports == []
  {
    a := new Person("A", "a", "", "Chief", "Board", rowA);
    b := new Person("B", "bb", "a", "Manager", "Sales", rowB);
    c := new Person("C", "ccc", "bb", "Clerk", "Sales", rowC);
    var company := new Company();
    company.Hire(a);
    company.Hire(b);
    company.Hire(c);
    assert company.employees == [a, b, c];
    ChainLinks(a, b, c);
    company.Organize();
  }

  /** Queries the chain: the single layer under A is B alone; the full
      closure of A is B then C, of B is C, and of C is empty. */
  method ChainScenario(rowA: Record, rowB: Record, rowC: Record)
    returns (singleLayerA: seq<Person>, a: Person, b: Person, c: Person,
             closureA: seq<Person>, closureB: seq<Person>, closureC: seq<Person>)
    ensures singleLayerA == [b]
    ensures closureA == [b, c] && closureB == [c] && closureC == []
  {
    a, b, c := BuildChain(rowA, rowB, rowC);
    singleLayerA := a.directReports;
    ghost var people := {a, b, c};
    closureC := c.AllSubordinates(people);
    closureB := b.AllSubordinates(people);
    ghost var g := Chart(people);
    assert g[a] == [b] && g[b] == [c] && g[c] == [];
    closureA := a.AllSubordinates(people);
    ChainTopClosure(g, a, b, c, closureA);
  }

  /** Hiring one more person extends the reports of a supervisor by that
      person exactly when it resolves to the supervisor. */
  lemma ReportsToSnoc(staff: seq<Person>, hires: seq<Person>, e: Person, supervisor: Person)
    ensures ReportsTo(staff, hires + [e], supervisor) ==
              ReportsTo(staff, hires, supervisor) + (if Lookup(staff, e.reportsTo) == Some(supervisor) then [e] else [])
  {
    assert (hires + [e])[..|hires|] == hires;
  }

  /** The people of a three-person roster that resolve to `supervisor`. */
  lemma ReportsToOfThree(staff: seq<Person>, x: Person, y: Person, z: Person, supervisor: Person)
    ensures ReportsTo(staff, [x, y, z], supervisor) ==
              (if Lookup(staff, x.reportsTo) == Some(supervisor) then [x] else []) +
              (if Lookup(staff, y.reportsTo) == Some(supervisor) then [y] else []) +
              (if Lookup(staff, z.reportsTo) == Some(supervisor) then [z] else [])
  {
    ReportsToSnoc(staff, [], x, supervisor);
    assert [] + [x] == [x];
    ReportsToSnoc(staff, [x], y, supervisor);
    assert [x] + [y] == [x, y];
    ReportsToSnoc(staff, [x, y], z, supervisor);
    assert [x, y] + [z] == [x, y, z];
  }

  /** How the chain's supervisor emails resolve. */
  lemma ChainLookups(a: Person, b: Person, c: Person)
    requires a.email == "a" && b.email == "bb" && c.email == "ccc"
    ensures Lookup([a, b, c], "") == None
    ensures Lookup([a, b, c], "a") == Some(a)
    ensures Lookup([a, b, c], "bb") == Some(b)
  {
    var staff := [a, b, c];
    assert !EmailMatches(a, "") && !EmailMatches(b, "") && !EmailMatches(c, "");
    assert EmailMatches(a, "a");
    assert !EmailMatches(a, "bb") && EmailMatches(b, "bb");
    assert staff[1..] == [b, c];
    assert FirstMatch(staff[1..], "bb") == Some(0);
  }

  /** organize links the chain: A gets B, B gets C, C nobody. */
  lemma ChainLinks(a: Person, b: Person, c: Person)
    requires a.email == "a" && b.email == "bb" && c.email == "ccc"
    requires a.reportsTo == "" && b.reportsTo == "a" && c.reportsTo == "bb"
    ensures ReportsTo([a, b, c], [a, b, c], a) == [b]
    ensures ReportsTo([a, b, c], [a, b, c], b) == [c]
    ensures ReportsTo([a, b, c], [a, b, c], c) == []
  {
    ChainLookups(a, b, c);
    assert a != b && b != c && a != c;
    ReportsToOfThree([a, b, c], a, b, c, a);
    ReportsToOfThree([a, b, c], a, b, c, b);
    ReportsToOfThree([a, b, c], a, b, c, c);
  }

  /** The closure of the chain's top is B then C. */
  lemma ChainTopClosure(g: map<Person, seq<Person>>, a: Person, b: Person, c: Person, r: seq<Person>)
    requires g.Keys == {a, b, c} && a != b && b != c && a != c
    requires g[a] == [b] && g[b] == [c] && g[c] == []
    requires IsClosure(g, a, [b], r)
    ensures r == [b, c]
  {
    ReachesEdge(g, a, b);
    ReachesStep(g, a, b, c);
    if a in r {
      ReachedHasParent(g, a, a);
    }
    assert Elems(r) <= {b, c};
    NewcomersCounted([b], r);
    assert r[..1] == [b];
    SmallerSetCard(Elems(r), {b, c});
    assert |r| == 2;
    assert r[1] != b by { assert r[1] !in r[..1]; }
  }

  lemma SmallerSetCard(small: set<Person>, big: set<Person>)
    requires small <= big
    ensures |small| <= |big|
  {
    var extra := big - small;
    assert big == small + extra && small * extra == {};
  }
}

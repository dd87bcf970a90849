/**
 * The container orchestrator (q28-container-orchestrator, ContainerManager.java).
 *
 * Machines are read from "id,cpu,memory" rows. A container is placed on the
 * machine with the most spare CPU (criteria 0) or spare memory (criteria 1)
 * among those that can hold it, the smallest machine id breaking ties, and
 * its resources are reserved until it is stopped.
 */
module ContainerManager {
  import opened Common
  import Strings
  import Ordering

  datatype Machine = Machine(totalCpu: int, totalMem: int, usedCpu: int, usedMem: int, containers: set<string>)

  datatype State = Running | Paused | Stopped

  datatype Container = Container(image: string, cpu: int, mem: int, machine: string, state: State)

  datatype Manager = Manager(machines: map<string, Machine>, containers: map<string, Container>)

  /** The reasons the constructor rejects a row. */
  datatype RowError = BlankRow | WrongFieldCount | BlankId | NotAnInteger | NotPositive | DuplicateId

  // ---------------------------------------------------------------------------
  // Machine resources
  // ---------------------------------------------------------------------------

  function FreeCpu(m: Machine): int { m.totalCpu - m.usedCpu }

  function FreeMem(m: Machine): int { m.totalMem - m.usedMem }

  predicate HasCapacityFor(m: Machine, cpu: int, mem: int) {
    FreeCpu(m) >= cpu && FreeMem(m) >= mem
  }

  /** Usage stays between zero and the machine's capacity. */
  predicate WithinCapacity(m: Machine) {
    0 <= m.usedCpu <= m.totalCpu && 0 <= m.usedMem <= m.totalMem
  }

  /** `Machine.allocate`: reserves the resources and records the container. */
  function Allocate(m: Machine, cpu: int, mem: int, name: string): (r: Machine)
    requires WithinCapacity(m) && 0 <= cpu && 0 <= mem && HasCapacityFor(m, cpu, mem)
    ensures WithinCapacity(r)
    ensures FreeCpu(r) == FreeCpu(m) - cpu && FreeMem(r) == FreeMem(m) - mem
    ensures r.totalCpu == m.totalCpu && r.totalMem == m.totalMem
    ensures name in r.containers
  {
    m.(usedCpu := m.usedCpu + cpu, usedMem := m.usedMem + mem, containers := m.containers + {name})
  }

  /** `Machine.release`: frees the resources (usage floored at zero) and forgets the container. */
  function Release(m: Machine, cpu: int, mem: int, name: string): (r: Machine)
    requires WithinCapacity(m) && 0 <= cpu && 0 <= mem
    ensures WithinCapacity(r)
    ensures r.usedCpu == (if m.usedCpu >= cpu then m.usedCpu - cpu else 0)
    ensures r.usedMem == (if m.usedMem >= mem then m.usedMem - mem else 0)
    ensures name !in r.containers
  {
    var cpu' := m.usedCpu - cpu;
    var mem' := m.usedMem - mem;
    m.(usedCpu := if cpu' < 0 then 0 else cpu',
       usedMem := if mem' < 0 then 0 else mem',
       containers := m.containers - {name})
  }

  /** Releasing what was just allocated restores the machine. */
  lemma ReleaseUndoesAllocate(m: Machine, cpu: int, mem: int, name: string)
    requires WithinCapacity(m) && 0 <= cpu && 0 <= mem && HasCapacityFor(m, cpu, mem)
    requires name !in m.containers
    ensures Release(Allocate(m, cpu, mem, name), cpu, mem, name) == m
  {
    assert m.containers + {name} - {name} == m.containers;
  }

  ghost predicate Valid(s: Manager) {
    && (forall id :: id in s.machines ==> id != [] && WithinCapacity(s.machines[id]))
    && (forall n :: n in s.containers ==> s.containers[n].cpu > 0 && s.containers[n].mem > 0)
    && (forall n :: n in s.containers ==> s.containers[n].machine in s.machines)
  }

  // ---------------------------------------------------------------------------
  // Constructor: "machineId,totalCpuUnits,totalMemoryInMB" rows
  // ---------------------------------------------------------------------------

  /** A machine row that parsed: the trimmed id and the two capacities. */
  datatype Row = Row(id: string, cpu: int, mem: int)

  /** One row: three comma-separated fields, a non-blank id and two positive integers. */
  function ParseRow(row: string): (r: Result<Row, RowError>)
    ensures r.Ok? ==> r.value.id != [] && r.value.cpu > 0 && r.value.mem > 0
    ensures r.Ok? ==> |Strings.Split(row, ',')| == 3 && r.value.id == Strings.Trim(Strings.Split(row, ',')[0])
    ensures Strings.IsBlank(row) ==> r == Err(BlankRow)
    ensures |Strings.Split(row, ',')| != 3 && !Strings.IsBlank(row) ==> r == Err(WrongFieldCount)
    ensures !Strings.IsBlank(row) && |Strings.Split(row, ',')| == 3 ==>
      var parts := Strings.Split(row, ',');
      var id := Strings.Trim(parts[0]);
      var cpu := Strings.ParseInt(Strings.Trim(parts[1]));
      var mem := Strings.ParseInt(Strings.Trim(parts[2]));
      && (id == [] ==> r == Err(BlankId))
      && (id != [] && (cpu.None? || mem.None?) ==> r == Err(NotAnInteger))
      && (id != [] && cpu.Some? && mem.Some? && (cpu.value <= 0 || mem.value <= 0) ==> r == Err(NotPositive))
      && (r.Ok? ==> r.value == Row(id, cpu.value, mem.value))
  {
    if Strings.IsBlank(row) then Err(BlankRow)
    else
      var parts := Strings.Split(row, ',');
      if |parts| != 3 then Err(WrongFieldCount)
      else
        var id := Strings.Trim(parts[0]);
        if id == [] then Err(BlankId)
        else
          var cpu := Strings.ParseInt(Strings.Trim(parts[1]));
          var mem := Strings.ParseInt(Strings.Trim(parts[2]));
          if cpu.None? || mem.None? then Err(NotAnInteger)
          else if cpu.value <= 0 || mem.value <= 0 then Err(NotPositive)
          else Ok(Row(id, cpu.value, mem.value))
  }

  /** Every row parsed on its own, in order. */
  function ParseRows(rows: seq<string>): (r: seq<Result<Row, RowError>>)
    ensures |r| == |rows|
    ensures forall k :: 0 <= k < |rows| ==> r[k] == ParseRow(rows[k])
  {
    if rows == [] then [] else [ParseRow(rows[0])] + ParseRows(rows[1..])
  }

  /** A machine as the constructor creates it: positive capacity, nothing used. */
  predicate IsFresh(m: Machine) {
    m.totalCpu > 0 && m.totalMem > 0 && m.usedCpu == 0 && m.usedMem == 0 && m.containers == {}
  }

  function FreshMachine(row: Row): Machine {
    Machine(row.cpu, row.mem, 0, 0, {})
  }

  predicate FreshMachines(acc: map<string, Machine>) {
    forall id :: id in acc ==> id != [] && IsFresh(acc[id])
  }

  predicate RowOk(r: Result<Row, RowError>) {
    r.Ok? && r.value.id != [] && r.value.cpu > 0 && r.value.mem > 0
  }

  /** The constructor loop: adds the parsed rows in order, stopping at the first rejected one. */
  function AddRows(acc: map<string, Machine>, rows: seq<Result<Row, RowError>>): (r: Result<map<string, Machine>, RowError>)
    requires FreshMachines(acc)
    requires forall k :: 0 <= k < |rows| && rows[k].Ok? ==> RowOk(rows[k])
    ensures r.Ok? ==> acc.Keys <= r.value.Keys && FreshMachines(r.value)
    decreases |rows|
  {
    if rows == [] then Ok(acc)
    else
      match rows[0]
      case Err(e) => Err(e)
      case Ok(row) =>
        if row.id in acc then Err(DuplicateId)
        else
          assert RowOk(rows[0]);
          assert forall k :: 0 <= k < |rows| - 1 ==> rows[1..][k] == rows[k + 1];
          AddRows(acc[row.id := FreshMachine(row)], rows[1..])
  }

  /** The constructor. */
  function Parse(rows: seq<string>): (r: Result<Manager, RowError>)
    ensures r.Ok? ==> Valid(r.value) && r.value.containers == map[]
    ensures r.Ok? ==> forall id :: id in r.value.machines ==> IsFresh(r.value.machines[id])
  {
    ParsedRowsOk(rows);
    match AddRows(map[], ParseRows(rows))
    case Err(e) => Err(e)
    case Ok(machines) => Ok(Manager(machines, map[]))
  }

  predicate AllOk(rows: seq<Result<Row, RowError>>) {
    forall k :: 0 <= k < |rows| ==> rows[k].Ok?
  }

  /** The machine ids of parsed rows. */
  function Ids(rows: seq<Result<Row, RowError>>): (ids: seq<string>)
    requires AllOk(rows)
    ensures |ids| == |rows|
    ensures forall k :: 0 <= k < |rows| ==> ids[k] == rows[k].value.id
  {
    if rows == [] then [] else [rows[0].value.id] + Ids(rows[1..])
  }

  /** The rows the loop accepts when it starts from `acc`: all parsed, and their ids are new and distinct. */
  predicate Acceptable(acc: map<string, Machine>, rows: seq<Result<Row, RowError>>) {
    && AllOk(rows)
    && Ordering.Distinct(Ids(rows))
    && Ordering.NoneIn(Ids(rows), acc.Keys)
  }

  lemma AcceptableCons(acc: map<string, Machine>, rows: seq<Result<Row, RowError>>, m: Machine)
    requires rows != [] && AllOk(rows)
    ensures AllOk(rows[1..])
    ensures var id := rows[0].value.id;
            Acceptable(acc, rows) <==> id !in acc && Acceptable(acc[id := m], rows[1..])
  {
    var id := rows[0].value.id;
    assert AllOk(rows[1..]) by {
      forall k | 0 <= k < |rows| - 1 ensures rows[1..][k].Ok? {
        assert rows[1..][k] == rows[k + 1];
      }
    }
    assert Ids(rows) == [id] + Ids(rows[1..]);
    Ordering.FreshDistinctCons(acc.Keys, id, Ids(rows[1..]));
    assert acc[id := m].Keys == acc.Keys + {id};
  }

  /** The row loop accepts exactly the acceptable rows. */
  lemma {:induction false} AddRowsAccepts(acc: map<string, Machine>, rows: seq<Result<Row, RowError>>)
    requires FreshMachines(acc)
    requires forall k :: 0 <= k < |rows| && rows[k].Ok? ==> RowOk(rows[k])
    ensures AddRows(acc, rows).Ok? <==> Acceptable(acc, rows)
    decreases |rows|
  {
    if rows != [] && rows[0].Ok? {
      var row := rows[0].value;
      var m := FreshMachine(row);
      if AllOk(rows) {
        AcceptableCons(acc, rows, m);
      } else {
        var k :| 0 <= k < |rows| && !rows[k].Ok?;
        assert k > 0 && rows[1..][k - 1] == rows[k];
        assert !AllOk(rows[1..]);
      }
      if row.id !in acc {
        assert forall k :: 0 <= k < |rows| - 1 ==> rows[1..][k] == rows[k + 1];
        AddRowsAccepts(acc[row.id := m], rows[1..]);
      }
    }
  }

  /** Every accepted row becomes a machine with that row's capacities. */
  lemma {:induction false} AddRowsKeepsRows(acc: map<string, Machine>, rows: seq<Result<Row, RowError>>, k: int)
    requires FreshMachines(acc)
    requires forall i :: 0 <= i < |rows| && rows[i].Ok? ==> RowOk(rows[i])
    requires AddRows(acc, rows).Ok?
    requires 0 <= k < |rows|
    ensures rows[k].Ok?
    ensures rows[k].value.id in AddRows(acc, rows).value
    ensures AddRows(acc, rows).value[rows[k].value.id] == FreshMachine(rows[k].value)
    decreases |rows|
  {
    var row := rows[0].value;
    var acc' := acc[row.id := FreshMachine(row)];
    assert forall i :: 0 <= i < |rows| - 1 ==> rows[1..][i] == rows[i + 1];
    if k == 0 {
      AddRowsKeepsEntry(acc', rows[1..], row.id);
    } else {
      AddRowsKeepsRows(acc', rows[1..], k - 1);
    }
  }

  /** Rows added later never replace a machine already present. */
  lemma {:induction false} AddRowsKeepsEntry(acc: map<string, Machine>, rows: seq<Result<Row, RowError>>, id: string)
    requires FreshMachines(acc)
    requires forall i :: 0 <= i < |rows| && rows[i].Ok? ==> RowOk(rows[i])
    requires AddRows(acc, rows).Ok?
    requires id in acc
    ensures AddRows(acc, rows).value[id] == acc[id]
    decreases |rows|
  {
    if rows != [] {
      var row := rows[0].value;
      assert forall i :: 0 <= i < |rows| - 1 ==> rows[1..][i] == rows[i + 1];
      AddRowsKeepsEntry(acc[row.id := FreshMachine(row)], rows[1..], id);
    }
  }

  /** The loop adds nothing but the starting machines and the rows' machines. */
  lemma {:induction false} AddRowsOnlyRows(acc: map<string, Machine>, rows: seq<Result<Row, RowError>>, id: string)
    requires FreshMachines(acc)
    requires forall i :: 0 <= i < |rows| && rows[i].Ok? ==> RowOk(rows[i])
    requires AddRows(acc, rows).Ok?
    requires id in AddRows(acc, rows).value
    ensures id in acc || exists k :: 0 <= k < |rows| && rows[k].Ok? && rows[k].value.id == id
    decreases |rows|
  {
    if rows != [] && id !in acc {
      var row := rows[0].value;
      assert forall i :: 0 <= i < |rows| - 1 ==> rows[1..][i] == rows[i + 1];
      if id != row.id {
        AddRowsOnlyRows(acc[row.id := FreshMachine(row)], rows[1..], id);
        var k :| 0 <= k < |rows| - 1 && rows[1..][k].Ok? && rows[1..][k].value.id == id;
        assert rows[k + 1] == rows[1..][k];
      }
    }
  }

  /** The parsed rows satisfy what the loop requires of them. */
  lemma ParsedRowsOk(rows: seq<string>)
    ensures forall k :: 0 <= k < |rows| && ParseRows(rows)[k].Ok? ==> RowOk(ParseRows(rows)[k])
  {
  }

  /** Every row parses. */
  predicate RowsParse(rows: seq<string>) {
    forall k :: 0 <= k < |rows| ==> ParseRow(rows[k]).Ok?
  }

  /** No two rows name the same machine. */
  predicate RowIdsDistinct(rows: seq<string>)
    requires RowsParse(rows)
  {
    forall i, j :: 0 <= i < j < |rows| ==> ParseRow(rows[i]).value.id != ParseRow(rows[j]).value.id
  }

  lemma ParsedAllOk(rows: seq<string>)
    ensures AllOk(ParseRows(rows)) <==> RowsParse(rows)
  {
    var parsed := ParseRows(rows);
    assert forall k :: 0 <= k < |rows| ==> parsed[k] == ParseRow(rows[k]);
  }

  lemma ParsedIdsDistinct(rows: seq<string>)
    requires RowsParse(rows)
    ensures AllOk(ParseRows(rows))
    ensures Ordering.Distinct(Ids(ParseRows(rows))) <==> RowIdsDistinct(rows)
  {
    ParsedAllOk(rows);
    var parsed := ParseRows(rows);
    var ids := Ids(parsed);
    forall k | 0 <= k < |rows|
      ensures ids[k] == ParseRow(rows[k]).value.id
    {
      assert parsed[k] == ParseRow(rows[k]);
    }
  }

  /** The constructor accepts exactly when every row parses and no machine id repeats. */
  lemma ParseAccepts(rows: seq<string>)
    ensures Parse(rows).Ok? <==> RowsParse(rows) && RowIdsDistinct(rows)
  {
    var parsed := ParseRows(rows);
    ParsedRowsOk(rows);
    AddRowsAccepts(map[], parsed);
    ParsedAllOk(rows);
    if RowsParse(rows) {
      ParsedIdsDistinct(rows);
    }
  }

  /** After a successful parse, row `k`'s id names a fresh machine with the row's capacities. */
  lemma ParseKeepsRows(rows: seq<string>, k: int)
    requires Parse(rows).Ok?
    requires 0 <= k < |rows|
    ensures ParseRow(rows[k]).Ok?
    ensures var row := ParseRow(rows[k]).value;
            && row.id in Parse(rows).value.machines
            && Parse(rows).value.machines[row.id] == Machine(row.cpu, row.mem, 0, 0, {})
  {
    var parsed := ParseRows(rows);
    ParsedRowsOk(rows);
    AddRowsKeepsRows(map[], parsed, k);
  }

  /** After a successful parse, every machine comes from one of the rows. */
  lemma ParseOnlyRows(rows: seq<string>, id: string)
    requires Parse(rows).Ok?
    requires id in Parse(rows).value.machines
    ensures exists i :: 0 <= i < |rows| && ParseRow(rows[i]).Ok? && ParseRow(rows[i]).value.id == id
  {
    var parsed := ParseRows(rows);
    ParsedRowsOk(rows);
    AddRowsOnlyRows(map[], parsed, id);
    var i :| 0 <= i < |parsed| && parsed[i].Ok? && parsed[i].value.id == id;
    assert parsed[i] == ParseRow(rows[i]);
  }

  // ---------------------------------------------------------------------------
  // assignMachine
  // ---------------------------------------------------------------------------

  /** The spare resource a criteria value maximizes. */
  function Metric(m: Machine, criteria: int): int {
    if criteria == 0 then FreeCpu(m) else FreeMem(m)
  }

  /** `a` is at least as good a host as `b`: more spare resource, or as much and an id no greater. */
  predicate Preferred(machines: map<string, Machine>, criteria: int, a: string, b: string)
    requires a in machines && b in machines
  {
    var ma := Metric(machines[a], criteria);
    var mb := Metric(machines[b], criteria);
    ma > mb || (ma == mb && Strings.LessEq(a, b))
  }

  function Fitting(s: Manager, cpu: int, mem: int): (r: set<string>)
    ensures forall id :: id in r <==> id in s.machines && HasCapacityFor(s.machines[id], cpu, mem)
  {
    set id | id in s.machines && HasCapacityFor(s.machines[id], cpu, mem)
  }

  /** The placement scan: the preferred machine among those with room for the request. */
  function ChooseHost(s: Manager, criteria: int, cpu: int, mem: int): (chosen: Option<string>)
    ensures chosen.None? <==> Fitting(s, cpu, mem) == {}
    ensures chosen.Some? ==>
      && chosen.value in s.machines
      && HasCapacityFor(s.machines[chosen.value], cpu, mem)
      && (forall id :: id in s.machines && HasCapacityFor(s.machines[id], cpu, mem) ==>
            Preferred(s.machines, criteria, chosen.value, id))
  {
    var fitting := Fitting(s, cpu, mem);
    if fitting == {} then None
    else
      var key := (id: string) => if id in s.machines then -Metric(s.machines[id], criteria) else 0;
      Some(Ordering.Least(key, fitting))
  }

  /** The request checks that make `assignMachine` return "" before looking at machines. */
  predicate RequestOk(s: Manager, criteria: int, name: string, cpu: int, mem: int) {
    !Strings.IsBlank(name) && cpu > 0 && mem > 0 && name !in s.containers && (criteria == 0 || criteria == 1)
  }

  /**
   * `assignMachine`: "" and no change for a rejected request or when no machine
   * has room; otherwise the preferred host, which reserves exactly the request.
   */
  function AssignMachine(s: Manager, criteria: int, name: string, image: string, cpu: int, mem: int)
    : (r: (Manager, string))
    requires Valid(s)
    ensures Valid(r.0)
    ensures r.1 == "" <==> !RequestOk(s, criteria, name, cpu, mem) || Fitting(s, cpu, mem) == {}
    ensures r.1 == "" ==> r.0 == s
    ensures r.1 != "" ==>
      var (t, host) := r;
      && host in s.machines
      && HasCapacityFor(s.machines[host], cpu, mem)
      && (forall id :: id in s.machines && HasCapacityFor(s.machines[id], cpu, mem) ==>
            Preferred(s.machines, criteria, host, id))
      && t.machines.Keys == s.machines.Keys
      && t.machines[host].usedCpu == s.machines[host].usedCpu + cpu
      && t.machines[host].usedMem == s.machines[host].usedMem + mem
      && (forall id :: id in s.machines && id != host ==> t.machines[id] == s.machines[id])
      && t.containers == s.containers[name := Container(image, cpu, mem, host, Running)]
  {
    if !RequestOk(s, criteria, name, cpu, mem) then (s, "")
    else
      match ChooseHost(s, criteria, cpu, mem)
      case None => (s, "")
      case Some(host) =>
        var m := Allocate(s.machines[host], cpu, mem, name);
        (Manager(s.machines[host := m], s.containers[name := Container(image, cpu, mem, host, Running)]), host)
  }

  // ---------------------------------------------------------------------------
  // stop
  // ---------------------------------------------------------------------------

  /** `stop`: a running or paused container becomes stopped and gives its resources back. */
  function Stop(s: Manager, name: string): (r: (Manager, bool))
    requires Valid(s)
    ensures Valid(r.0)
    ensures r.1 <==> !Strings.IsBlank(name) && name in s.containers && s.containers[name].state != Stopped
                     && !Strings.IsBlank(s.containers[name].machine)
    ensures !r.1 ==> r.0 == s
    ensures r.1 ==>
      var c := s.containers[name];
      && r.0.containers == s.containers[name := c.(state := Stopped)]
      && r.0.machines == s.machines[c.machine := Release(s.machines[c.machine], c.cpu, c.mem, name)]
  {
    if Strings.IsBlank(name) || name !in s.containers then (s, false)
    else
      var c := s.containers[name];
      if c.state == Stopped then (s, false)
      else if Strings.IsBlank(c.machine) then (s, false)
      else if c.machine !in s.machines then (s, false)
      else
        var host := Release(s.machines[c.machine], c.cpu, c.mem, name);
        (Manager(s.machines[c.machine := host], s.containers[name := c.(state := Stopped)]), true)
  }

  /** Stopping a container twice: the second call reports false and changes nothing. */
  lemma StopTwice(s: Manager, name: string)
    requires Valid(s)
    requires Stop(s, name).1
    ensures Stop(Stop(s, name).0, name) == (Stop(s, name).0, false)
  {
  }
}

/**
 * The records of the remote tree (/routes, /vehicles, /reports) and the
 * store that holds them. The remote database is replaced by an in-memory
 * store whose three fields are the three sub-trees; a read is a field
 * access and a write is a field assignment.
 */
module Records {
  import opened Wrappers

  /** /routes/{routeId}: a display name and the stops in travel order. A
      route without a `stops` list has the empty list. */
  datatype Route = Route(routeName: string, stops: seq<string>)

  /** One schedule entry. A missing `stop` field is the empty string. */
  datatype ScheduleItem = ScheduleItem(stop: string, timeEpoch: int)

  /** /vehicles/{routeId}/{vehicleId}. `currentStopIndex` is whatever the
      database holds; nothing forces it into the schedule's range. */
  datatype Vehicle = Vehicle(delayMinutes: int, currentStopIndex: int, schedule: seq<ScheduleItem>)

  /** /reports/{routeId}/{reportId}. */
  datatype Report = Report(
    reportId: string,
    timestampEpoch: int,
    routeId: string,
    vehicleId: Option<string>,
    reportType: string,
    severity: int,
    message: string,
    stop: Option<string>)

  /** An entry of a report collection as read back: a record, or a value
      of some other shape that readers skip. */
  datatype ReportEntry = Record(report: Report) | Malformed

  /** A heap payload: which vehicle of which route arrives. */
  datatype Arrival = Arrival(routeId: string, vehicleId: string)

  /** A query answer: an effective arrival time and the vehicle. */
  datatype Candidate = Candidate(eta: int, vehicleId: string)

  /** The remote tree. Report collections are kept in the order their
      entries are read back, newest appended last. */
  class Store {
    var routes: map<string, Route>
    var vehicles: map<string, map<string, Vehicle>>
    var reports: map<string, seq<ReportEntry>>

    constructor (routes: map<string, Route>, vehicles: map<string, map<string, Vehicle>>,
                 reports: map<string, seq<ReportEntry>>)
      ensures this.routes == routes && this.vehicles == vehicles && this.reports == reports
    {
      this.routes := routes;
      this.vehicles := vehicles;
      this.reports := reports;
    }

    /** `/vehicles/{rid}`, read with `or {}`: a missing table is empty. */
    function VehiclesAt(rid: string): (vmap: map<string, Vehicle>)
      reads this`vehicles
      ensures rid in vehicles ==> vmap == vehicles[rid]
      ensures rid !in vehicles ==> vmap == map[]
    {
      if rid in vehicles then vehicles[rid] else map[]
    }

    /** `/reports/{rid}`, read with `or {}`: a missing collection is empty. */
    function ReportsAt(rid: string): (data: seq<ReportEntry>)
      reads this`reports
      ensures rid in reports ==> data == reports[rid]
      ensures rid !in reports ==> data == []
    {
      if rid in reports then reports[rid] else []
    }

    /** An `update` of `/vehicles/{rid}/{vid}`: the record is replaced by
        `v`, every other vehicle and sub-tree keeps its value. */
    method SetVehicle(rid: string, vid: string, v: Vehicle)
      modifies this`vehicles
      ensures vehicles == old(vehicles)[rid := old(VehiclesAt(rid))[vid := v]]
    {
      vehicles := vehicles[rid := VehiclesAt(rid)[vid := v]];
    }

    /** A `push().set(...)` under `/reports/{rid}`: the record becomes the
        newest entry of the collection. */
    method AppendReport(rid: string, r: Report)
      modifies this`reports
      ensures reports == old(reports)[rid := old(ReportsAt(rid)) + [Record(r)]]
    {
      reports := reports[rid := ReportsAt(rid) + [Record(r)]];
    }
  }
}

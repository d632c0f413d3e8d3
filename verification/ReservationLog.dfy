/**
 The hotel reservations as a log of rows, one row for each night of each stay, and what the two
 requests mean for the log alone.
 */
module ReservationLog {
  import opened Dates
  import opened Options

  datatype Row = Row(hotelId: string, customerName: string, inDate: string, outDate: string, number: int) {
    /** The value of a text field of the stored document, under its stored name. */
    function Field(name: string): Option<string> {
      if name == "hotelid" then Some(hotelId)
      else if name == "customername" then Some(customerName)
      else if name == "indate" then Some(inDate)
      else if name == "outdate" then Some(outDate)
      else None
    }
  }

  /** The row is for this hotel and the night that ends on day `d`. */
  predicate IsNight(row: Row, fmt: Calendar, h: string, d: int) {
    row.hotelId == h && row.inDate == fmt(d - 1) && row.outDate == fmt(d)
  }

  /** How many rooms are booked in hotel `h` for the night that ends on day `d`. */
  function Booked(log: seq<Row>, fmt: Calendar, h: string, d: int): int {
    if log == [] then 0
    else Booked(log[..|log| - 1], fmt, h, d) + (if IsNight(log[|log| - 1], fmt, h, d) then log[|log| - 1].number else 0)
  }

  // ---------- Queries ----------

  /** The document has every field of the filter, with the filter's value. */
  predicate Matches(row: Row, filter: map<string, string>) {
    forall name :: name in filter ==> row.Field(name) == Some(filter[name])
  }

  /** The sum over all documents that match. */
  function CountOf(log: seq<Row>, filter: map<string, string>): int {
    if log == [] then 0
    else CountOf(log[..|log| - 1], filter) + (if Matches(log[|log| - 1], filter) then log[|log| - 1].number else 0)
  }

  /** The field names that a query uses for the two dates. */
  datatype Names = Names(inName: string, outName: string)

  /** The names under which the dates are stored. */
  const AS_STORED := Names("indate", "outdate")

  /** The names that the query in the source uses. */
  const AS_WRITTEN := Names("inDate", "outDate")

  function NightFilter(names: Names, fmt: Calendar, h: string, d: int): map<string, string> {
    map["hotelid" := h, names.inName := fmt(d - 1), names.outName := fmt(d)]
  }

  /** What a query for one night finds: with the stored names what is booked, as written nothing. */
  lemma {:induction false} QueryFinds(log: seq<Row>, fmt: Calendar, h: string, d: int)
    ensures CountOf(log, NightFilter(AS_STORED, fmt, h, d)) == Booked(log, fmt, h, d)
    ensures CountOf(log, NightFilter(AS_WRITTEN, fmt, h, d)) == 0
  {
    if log != [] {
      QueryFinds(log[..|log| - 1], fmt, h, d);
      RowMatches(log[|log| - 1], fmt, h, d);
    }
  }

  lemma RowMatches(row: Row, fmt: Calendar, h: string, d: int)
    ensures Matches(row, NightFilter(AS_STORED, fmt, h, d)) <==> IsNight(row, fmt, h, d)
    ensures !Matches(row, NightFilter(AS_WRITTEN, fmt, h, d))
  {
    var stored, written := NightFilter(AS_STORED, fmt, h, d), NightFilter(AS_WRITTEN, fmt, h, d);
    assert "hotelid" != "indate" && "hotelid" != "outdate" && "indate" != "outdate" by {
      assert "hotelid"[0] == 'h' && "indate"[0] == 'i' && "outdate"[0] == 'o';
    }
    assert "hotelid" in stored && "indate" in stored && "outdate" in stored;
    assert stored["hotelid"] == h && stored["indate"] == fmt(d - 1) && stored["outdate"] == fmt(d);
    assert "inDate" in written && row.Field("inDate") == None by {
      assert "inDate"[2] == 'D' && "indate"[2] == 'd';
      assert "inDate"[0] == 'i' && "hotelid"[0] == 'h' && "customername"[0] == 'c' && "outdate"[0] == 'o';
    }
  }

  // ---------- What the requests mean ----------

  datatype Request = Request(customerName: string, hotelIds: seq<string>, inDay: Day, outDay: Day, rooms: int)

  datatype Reply = Accepted | Full | Panicked

  /** Every night of the stay has the rooms. */
  ghost predicate Fits(log: seq<Row>, fmt: Calendar, capacity: int, h: string, inDay: int, outDay: int, rooms: int) {
    forall d :: inDay < d <= outDay ==> Booked(log, fmt, h, d) + rooms <= capacity
  }

  /** The answer to a reservation for the request's first hotel, by whether its rooms fit. */
  function Decide(capacity: map<string, int>, req: Request, fits: bool): Reply {
    if req.hotelIds == [] then Panicked
    else if req.inDay >= req.outDay then Accepted
    else if req.hotelIds[0] !in capacity then Panicked
    else if fits then Accepted
    else Full
  }

  /** The right answer: the rooms have to fit what is booked. */
  ghost function Answer(log: seq<Row>, fmt: Calendar, capacity: map<string, int>, req: Request): Reply {
    var fits := && req.hotelIds != [] && req.hotelIds[0] in capacity
                && Fits(log, fmt, capacity[req.hotelIds[0]], req.hotelIds[0], req.inDay, req.outDay, req.rooms);
    Decide(capacity, req, fits)
  }

  /** The rows of a stay, one for each night. */
  function Rows(fmt: Calendar, h: string, customer: string, inDay: int, outDay: int, rooms: int): seq<Row>
    decreases outDay - inDay
  {
    if inDay >= outDay then []
    else Rows(fmt, h, customer, inDay, outDay - 1, rooms) + [Row(h, customer, fmt(outDay - 1), fmt(outDay), rooms)]
  }

  /** What a request with this reply makes of the log. */
  function LogWith(log: seq<Row>, fmt: Calendar, req: Request, reply: Reply): seq<Row> {
    if reply == Accepted && req.hotelIds != [] then
      log + Rows(fmt, req.hotelIds[0], req.customerName, req.inDay, req.outDay, req.rooms)
    else log
  }

  ghost function LogAfter(log: seq<Row>, fmt: Calendar, capacity: map<string, int>, req: Request): seq<Row> {
    LogWith(log, fmt, req, Answer(log, fmt, capacity, req))
  }

  /** The rooms that a request with this reply adds to the night that ends on day `d`. */
  function Added(req: Request, reply: Reply, h: string, d: int): int {
    if reply == Accepted && req.hotelIds != [] && h == req.hotelIds[0] && req.inDay < d <= req.outDay then req.rooms
    else 0
  }

  /** Whether one hotel is listed as available. */
  ghost predicate Available(log: seq<Row>, fmt: Calendar, capacity: map<string, int>, req: Request, h: string) {
    && req.inDay < req.outDay
    && h in capacity
    && Fits(log, fmt, capacity[h], h, req.inDay, req.outDay, req.rooms)
  }

  /** The hotels that are available, in the order of the request. */
  ghost function Listed(
    log: seq<Row>, fmt: Calendar, capacity: map<string, int>, req: Request, hotels: seq<string>): seq<string>
  {
    if hotels == [] then []
    else
      var before := Listed(log, fmt, capacity, req, hotels[..|hotels| - 1]);
      if Available(log, fmt, capacity, req, hotels[|hotels| - 1]) then before + [hotels[|hotels| - 1]] else before
  }

  // ---------- What follows ----------

  lemma {:induction false} BookedConcat(a: seq<Row>, b: seq<Row>, fmt: Calendar, h: string, d: int)
    ensures Booked(a + b, fmt, h, d) == Booked(a, fmt, h, d) + Booked(b, fmt, h, d)
  {
    if b == [] {
      assert a + b == a;
    } else {
      assert (a + b)[..|a + b| - 1] == a + b[..|b| - 1];
      BookedConcat(a, b[..|b| - 1], fmt, h, d);
    }
  }

  /** A stay books its rooms on each of its nights and on no other. */
  lemma {:induction false} RowsBook(
    fmt: Calendar, h: string, customer: string, inDay: int, outDay: int, rooms: int, other: string, d: int)
    requires IsCalendar(fmt) && 0 <= inDay && outDay < DAYS && EndsNight(d)
    ensures Booked(Rows(fmt, h, customer, inDay, outDay, rooms), fmt, other, d) ==
              if other == h && inDay < d <= outDay then rooms else 0
    decreases outDay - inDay
  {
    if inDay < outDay {
      RowsBook(fmt, h, customer, inDay, outDay - 1, rooms, other, d);
      var rows := Rows(fmt, h, customer, inDay, outDay, rooms);
      assert rows[..|rows| - 1] == Rows(fmt, h, customer, inDay, outDay - 1, rooms);
    }
  }

  lemma ReplyEffect(log: seq<Row>, fmt: Calendar, req: Request, reply: Reply, h: string, d: int)
    requires IsCalendar(fmt) && EndsNight(d)
    ensures Booked(LogWith(log, fmt, req, reply), fmt, h, d) == Booked(log, fmt, h, d) + Added(req, reply, h, d)
  {
    if reply == Accepted && req.hotelIds != [] {
      var rows := Rows(fmt, req.hotelIds[0], req.customerName, req.inDay, req.outDay, req.rooms);
      BookedConcat(log, rows, fmt, h, d);
      RowsBook(fmt, req.hotelIds[0], req.customerName, req.inDay, req.outDay, req.rooms, h, d);
    }
  }

  /** An accepted request adds its rooms to each night of the stay and to nothing else; others add nothing. */
  lemma RequestEffect(log: seq<Row>, fmt: Calendar, capacity: map<string, int>, req: Request, h: string, d: int)
    requires IsCalendar(fmt) && EndsNight(d)
    ensures Booked(LogAfter(log, fmt, capacity, req), fmt, h, d) == Booked(log, fmt, h, d) +
              if Answer(log, fmt, capacity, req) == Accepted && h == req.hotelIds[0] && req.inDay < d <= req.outDay
              then req.rooms else 0
  {
    ReplyEffect(log, fmt, req, Answer(log, fmt, capacity, req), h, d);
  }

  /** How many nights a stay has. */
  function Nights(req: Request): nat {
    if req.inDay < req.outDay then req.outDay - req.inDay else 0
  }

  /** The log is as before with one row for each night of the stay behind it, first night first. */
  ghost predicate AddsStay(before: seq<Row>, after: seq<Row>, fmt: Calendar, req: Request)
    requires req.hotelIds != []
  {
    && |after| == |before| + Nights(req)
    && (forall i :: 0 <= i < |before| ==> after[i] == before[i])
    && (forall k :: |before| <= k < |after| ==>
          var d := req.inDay + k - |before|;
          after[k] == Row(req.hotelIds[0], req.customerName, fmt(d), fmt(d + 1), req.rooms))
  }

  lemma {:induction false} RowsAre(fmt: Calendar, h: string, customer: string, inDay: int, outDay: int, rooms: int)
    ensures var rows := Rows(fmt, h, customer, inDay, outDay, rooms);
            && |rows| == (if inDay < outDay then outDay - inDay else 0)
            && forall i :: 0 <= i < |rows| ==> rows[i] == Row(h, customer, fmt(inDay + i), fmt(inDay + i + 1), rooms)
    decreases outDay - inDay
  {
    if inDay < outDay {
      RowsAre(fmt, h, customer, inDay, outDay - 1, rooms);
    }
  }

  /** What an accepted request inserts, row by row; any other leaves the log as it was. */
  lemma InsertedRows(log: seq<Row>, fmt: Calendar, req: Request, reply: Reply)
    requires reply == Accepted ==> req.hotelIds != []
    ensures if reply == Accepted then AddsStay(log, LogWith(log, fmt, req, reply), fmt, req)
            else LogWith(log, fmt, req, reply) == log
  {
    if reply == Accepted {
      RowsAre(fmt, req.hotelIds[0], req.customerName, req.inDay, req.outDay, req.rooms);
    }
  }

  /**
   A stay with nights in a known hotel is accepted exactly if the hotel has the rooms for every night
   after it has been booked; one without nights always; an unknown hotel or none at all panics.
   */
  lemma AnswerIff(log: seq<Row>, fmt: Calendar, capacity: map<string, int>, req: Request)
    requires IsCalendar(fmt)
    ensures req.hotelIds == [] ==> Answer(log, fmt, capacity, req) == Panicked
    ensures req.hotelIds != [] && req.inDay >= req.outDay ==> Answer(log, fmt, capacity, req) == Accepted
    ensures req.hotelIds != [] && req.inDay < req.outDay && req.hotelIds[0] !in capacity ==>
        Answer(log, fmt, capacity, req) == Panicked
    ensures req.hotelIds != [] && req.inDay < req.outDay && req.hotelIds[0] in capacity ==>
        Answer(log, fmt, capacity, req) ==
          if StaysWithin(log, fmt, capacity[req.hotelIds[0]], req) then Accepted else Full
  {
    if req.hotelIds != [] && req.inDay < req.outDay && req.hotelIds[0] in capacity {
      forall d | req.inDay < d <= req.outDay
        ensures Booked(LogWith(log, fmt, req, Accepted), fmt, req.hotelIds[0], d) ==
                  Booked(log, fmt, req.hotelIds[0], d) + req.rooms
      {
        ReplyEffect(log, fmt, req, Accepted, req.hotelIds[0], d);
      }
    }
  }

  /** With the stay in the log, none of its nights has more rooms booked than there are. */
  ghost predicate StaysWithin(log: seq<Row>, fmt: Calendar, capacity: int, req: Request)
    requires req.hotelIds != []
  {
    forall d :: req.inDay < d <= req.outDay ==>
      Booked(LogWith(log, fmt, req, Accepted), fmt, req.hotelIds[0], d) <= capacity
  }

  ghost predicate WithinCapacity(log: seq<Row>, fmt: Calendar, capacity: map<string, int>) {
    forall h, d :: h in capacity && EndsNight(d) ==> Booked(log, fmt, h, d) <= capacity[h]
  }

  lemma RequestKeepsCapacity(log: seq<Row>, fmt: Calendar, capacity: map<string, int>, req: Request)
    requires IsCalendar(fmt) && WithinCapacity(log, fmt, capacity)
    ensures WithinCapacity(LogAfter(log, fmt, capacity, req), fmt, capacity)
  {
    forall h, d | h in capacity && EndsNight(d)
      ensures Booked(LogAfter(log, fmt, capacity, req), fmt, h, d) <= capacity[h]
    {
      RequestEffect(log, fmt, capacity, req, h, d);
    }
  }

  /** The log after all requests, one after the other. */
  ghost function LogAfterAll(log: seq<Row>, fmt: Calendar, capacity: map<string, int>, reqs: seq<Request>): seq<Row> {
    if reqs == [] then log
    else LogAfter(LogAfterAll(log, fmt, capacity, reqs[..|reqs| - 1]), fmt, capacity, reqs[|reqs| - 1])
  }

  /** No run of requests ever books more rooms than a hotel has, on any night. */
  lemma {:induction false} NeverOverbooked(log: seq<Row>, fmt: Calendar, capacity: map<string, int>, reqs: seq<Request>)
    requires IsCalendar(fmt) && WithinCapacity(log, fmt, capacity)
    ensures WithinCapacity(LogAfterAll(log, fmt, capacity, reqs), fmt, capacity)
  {
    if reqs != [] {
      NeverOverbooked(log, fmt, capacity, reqs[..|reqs| - 1]);
      RequestKeepsCapacity(LogAfterAll(log, fmt, capacity, reqs[..|reqs| - 1]), fmt, capacity, reqs[|reqs| - 1]);
    }
  }

  /** A hotel is listed exactly if a reservation for it would be accepted and the stay has a night. */
  lemma ListedIffAcceptable(log: seq<Row>, fmt: Calendar, capacity: map<string, int>, req: Request, h: string)
    ensures h in Listed(log, fmt, capacity, req, req.hotelIds) <==>
              && h in req.hotelIds && req.inDay < req.outDay
              && Answer(log, fmt, capacity, req.(hotelIds := [h])) == Accepted
  {
    ListedMembers(log, fmt, capacity, req, req.hotelIds, h);
  }

  /**
   The list holds the acceptable hotels in the order of the request, each as often as it was asked for:
   `at` are their places in the request.
   */
  lemma ListedPlaces(log: seq<Row>, fmt: Calendar, capacity: map<string, int>, req: Request) returns (at: seq<nat>)
    ensures |Listed(log, fmt, capacity, req, req.hotelIds)| == |at|
    ensures forall j :: 0 <= j < |at| ==>
        at[j] < |req.hotelIds| && Listed(log, fmt, capacity, req, req.hotelIds)[j] == req.hotelIds[at[j]]
    ensures forall i, j :: 0 <= i < j < |at| ==> at[i] < at[j]
    ensures forall i: nat :: i in at <==>
        i < |req.hotelIds| && req.inDay < req.outDay
        && Answer(log, fmt, capacity, req.(hotelIds := [req.hotelIds[i]])) == Accepted
  {
    hide Fits;
    at := PlacesUpTo(log, fmt, capacity, req, req.hotelIds);
  }

  /** `at` are the places of the hotels in the list. */
  ghost predicate Places(list: seq<string>, hotels: seq<string>, at: seq<nat>) {
    && |list| == |at|
    && (forall j :: 0 <= j < |at| ==> at[j] < |hotels| && list[j] == hotels[at[j]])
    && (forall i, j :: 0 <= i < j < |at| ==> at[i] < at[j])
  }

  lemma OneMorePlace(list: seq<string>, hotels: seq<string>, at: seq<nat>)
    requires hotels != [] && Places(list, hotels[..|hotels| - 1], at)
    ensures Places(list, hotels, at)
    ensures Places(list + [hotels[|hotels| - 1]], hotels, at + [|hotels| - 1])
    ensures forall i: nat :: i in at + [|hotels| - 1] <==> i in at || i == |hotels| - 1
    ensures forall i :: i in at ==> i < |hotels| - 1
  {
  }

  lemma {:induction false} PlacesUpTo(
    log: seq<Row>, fmt: Calendar, capacity: map<string, int>, req: Request, hotels: seq<string>) returns (at: seq<nat>)
    ensures Places(Listed(log, fmt, capacity, req, hotels), hotels, at)
    ensures forall i: nat :: i in at <==> i < |hotels| && Available(log, fmt, capacity, req, hotels[i])
  {
    hide Available, Places;
    at := [];
    if hotels != [] {
      var m := |hotels| - 1;
      at := PlacesUpTo(log, fmt, capacity, req, hotels[..m]);
      OneMorePlace(Listed(log, fmt, capacity, req, hotels[..m]), hotels, at);
      if Available(log, fmt, capacity, req, hotels[m]) {
        at := at + [m];
      }
    } else {
      NoPlaces();
    }
  }

  lemma NoPlaces()
    ensures Places([], [], [])
  {
  }

  lemma {:induction false} ListedMembers(
    log: seq<Row>, fmt: Calendar, capacity: map<string, int>, req: Request, hotels: seq<string>, h: string)
    ensures h in Listed(log, fmt, capacity, req, hotels) <==> h in hotels && Available(log, fmt, capacity, req, h)
  {
    if hotels != [] {
      ListedMembers(log, fmt, capacity, req, hotels[..|hotels| - 1], h);
      assert hotels == hotels[..|hotels| - 1] + [hotels[|hotels| - 1]];
    }
  }
}

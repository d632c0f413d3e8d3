/** The cache in front of the reservation log: its keys, and what the server believes because of it. */
module ReservationCache {
  import opened Dates
  import opened ReservationLog
  import opened Text

  /** The cached count for the night that ends on day `d`; the source writes that day twice. */
  function CountKey(fmt: Calendar, h: string, d: int): string {
    h + "_" + fmt(d) + "_" + fmt(d)
  }

  function CapKey(h: string): string {
    h + "_cap"
  }

  /** The keys are their parts, joined by underscores. */
  lemma KeysAre(fmt: Calendar, h: string, d: int)
    ensures CountKey(fmt, h, d) == Join([h, fmt(d), fmt(d)], "_")
    ensures CapKey(h) == Join([h, "cap"], "_")
  {
    var day := fmt(d);
    JoinOfTwo(day, day);
    JoinOfTwo(h, "cap");
    assert [h, day, day][1..] == [day, day];
    assert Join([h, day, day], "_") == h + "_" + Join([day, day], "_");
    assert h + "_" + day + "_" + day == h + "_" + (day + "_" + day);
    assert "_cap" == "_" + "cap";
  }

  lemma JoinOfTwo(a: string, b: string)
    ensures Join([a, b], "_") == a + "_" + b
  {
    assert [a, b][1..] == [b];
  }

  /** Count keys of different nights or hotels differ, and none is a capacity key. */
  lemma KeysDistinct(fmt: Calendar, h: string, d: int, other: string, e: int)
    requires IsCalendar(fmt) && EndsNight(d) && EndsNight(e)
    ensures CountKey(fmt, h, d) == CountKey(fmt, other, e) ==> h == other && d == e
    ensures CountKey(fmt, h, d) != CapKey(other)
  {
    CountKeyTail(fmt, h, d);
    CountKeyTail(fmt, other, e);
    var a, b := CountKey(fmt, h, d), CountKey(fmt, other, e);
    if a == b {
      assert a[|a| - 10..] == b[|b| - 10..];
      assert a[..|a| - 22] == b[..|b| - 22];
    }
    var cap := CapKey(other);
    assert cap[|cap| - 1] == 'p';
    assert a[|a| - 1] == a[|a| - 10..][9];
  }

  lemma CountKeyTail(fmt: Calendar, h: string, d: int)
    requires IsCalendar(fmt) && EndsNight(d)
    ensures var a := CountKey(fmt, h, d);
            && |a| == |h| + 22 && a[|a| - 10..] == fmt(d) && '0' <= fmt(d)[9] <= '9'
            && a[..|a| - 22] == h
  {
    var day: Day := d;
    assert |fmt(day)| == 10 && '0' <= fmt(day)[9] <= '9';
    var a := CountKey(fmt, h, d);
    assert a == h + ("_" + fmt(d) + "_" + fmt(d));
    assert |"_"| == 1;
  }

  lemma CapKeysDistinct(h: string, other: string)
    requires CapKey(h) == CapKey(other)
    ensures h == other
  {
    assert CapKey(h)[..|CapKey(h)| - 4] == h && CapKey(other)[..|CapKey(other)| - 4] == other;
  }

  /** What the server takes for the bookings of a night: the cached count, or else the query's sum. */
  function Lookup(names: Names, fmt: Calendar, log: seq<Row>, items: map<string, int>, h: string, d: int): int {
    if CountKey(fmt, h, d) in items then items[CountKey(fmt, h, d)]
    else CountOf(log, NightFilter(names, fmt, h, d))
  }

  /** Whatever night the server looks up, it gets what is booked. */
  ghost predicate Right(names: Names, fmt: Calendar, log: seq<Row>, items: map<string, int>) {
    forall h, d :: EndsNight(d) ==> Lookup(names, fmt, log, items, h, d) == Booked(log, fmt, h, d)
  }

  /** Cached capacities are those of the table. */
  ghost predicate CapsRight(capacity: map<string, int>, items: map<string, int>) {
    forall h :: CapKey(h) in items ==> h in capacity && items[CapKey(h)] == capacity[h]
  }

  /** With either cache, the server gets the same for every night. */
  ghost predicate SameLookups(
    names: Names, fmt: Calendar, log: seq<Row>, items: map<string, int>, other: map<string, int>)
  {
    forall h, d :: EndsNight(d) ==> Lookup(names, fmt, log, items, h, d) == Lookup(names, fmt, log, other, h, d)
  }

  lemma SameAt(names: Names, fmt: Calendar, log: seq<Row>, a: map<string, int>, b: map<string, int>, h: string, d: int)
    requires SameLookups(names, fmt, log, a, b) && EndsNight(d)
    ensures Lookup(names, fmt, log, a, h, d) == Lookup(names, fmt, log, b, h, d)
  {
  }

  lemma SameThrough(
    names: Names, fmt: Calendar, log: seq<Row>, a: map<string, int>, b: map<string, int>, c: map<string, int>)
    requires SameLookups(names, fmt, log, a, b) && SameLookups(names, fmt, log, b, c)
    ensures SameLookups(names, fmt, log, a, c)
  {
    hide Lookup;
    forall h, d | EndsNight(d) ensures Lookup(names, fmt, log, a, h, d) == Lookup(names, fmt, log, c, h, d) {
      assert Lookup(names, fmt, log, a, h, d) == Lookup(names, fmt, log, b, h, d);
    }
  }

  lemma RightAt(names: Names, fmt: Calendar, log: seq<Row>, items: map<string, int>, h: string, d: int)
    requires EndsNight(d)
    ensures Right(names, fmt, log, items) ==> Lookup(names, fmt, log, items, h, d) == Booked(log, fmt, h, d)
  {
  }

  lemma StillRight(names: Names, fmt: Calendar, log: seq<Row>, a: map<string, int>, b: map<string, int>)
    requires SameLookups(names, fmt, log, a, b)
    ensures Right(names, fmt, log, a) ==> Right(names, fmt, log, b)
  {
    hide Lookup;
    if Right(names, fmt, log, a) {
      forall h, d | EndsNight(d) ensures Lookup(names, fmt, log, b, h, d) == Booked(log, fmt, h, d) {
        assert Lookup(names, fmt, log, a, h, d) == Lookup(names, fmt, log, b, h, d);
      }
    }
  }

  // ---------- What the server does because of it ----------

  /** As far as the server can see, every night of the stay has the rooms. */
  ghost predicate SeemsToFit(
    names: Names, fmt: Calendar, log: seq<Row>, items: map<string, int>, capacity: int, h: string, inDay: int,
    outDay: int, rooms: int)
  {
    forall d :: inDay < d <= outDay ==> Lookup(names, fmt, log, items, h, d) + rooms <= capacity
  }

  /** The answer that the server gives. */
  ghost function Reaction(
    names: Names, fmt: Calendar, log: seq<Row>, items: map<string, int>, capacity: map<string, int>,
    req: Request): Reply
  {
    var fits := && req.hotelIds != [] && req.hotelIds[0] in capacity
                && SeemsToFit(names, fmt, log, items, capacity[req.hotelIds[0]], req.hotelIds[0],
                              req.inDay, req.outDay, req.rooms);
    Decide(capacity, req, fits)
  }

  /**
   The server answers every request as it should exactly if it gets what is booked for every night of a
   known hotel.
   */
  lemma AnswersRightIff(names: Names, fmt: Calendar, log: seq<Row>, items: map<string, int>, capacity: map<string, int>)
    ensures (forall req :: Reaction(names, fmt, log, items, capacity, req) == Answer(log, fmt, capacity, req)) <==>
              forall h, d :: h in capacity && EndsNight(d) ==>
                Lookup(names, fmt, log, items, h, d) == Booked(log, fmt, h, d)
  {
    hide CountKey, Booked, Lookup;
    if forall req :: Reaction(names, fmt, log, items, capacity, req) == Answer(log, fmt, capacity, req) {
      forall h, d | h in capacity && EndsNight(d)
        ensures Lookup(names, fmt, log, items, h, d) == Booked(log, fmt, h, d)
      {
        AnswersRightAt(names, fmt, log, items, capacity, h, d);
      }
    } else {
      var req :| Reaction(names, fmt, log, items, capacity, req) != Answer(log, fmt, capacity, req);
      var h := req.hotelIds[0];
      var d :| req.inDay < d <= req.outDay && Lookup(names, fmt, log, items, h, d) != Booked(log, fmt, h, d);
    }
  }

  /** A request for all rooms that are free by the smaller of the two numbers tells them apart. */
  lemma AnswersRightAt(
    names: Names, fmt: Calendar, log: seq<Row>, items: map<string, int>, capacity: map<string, int>, h: string, d: int)
    requires h in capacity && EndsNight(d)
    requires forall req :: Reaction(names, fmt, log, items, capacity, req) == Answer(log, fmt, capacity, req)
    ensures Lookup(names, fmt, log, items, h, d) == Booked(log, fmt, h, d)
  {
    hide CountKey, Booked, Lookup;
    var believed, booked := Lookup(names, fmt, log, items, h, d), Booked(log, fmt, h, d);
    var rooms := capacity[h] - if believed < booked then believed else booked;
    var req := Request("", [h], d - 1, d, rooms);
    assert SeemsToFit(names, fmt, log, items, capacity[h], h, d - 1, d, rooms) <==> believed + rooms <= capacity[h];
    assert Fits(log, fmt, capacity[h], h, d - 1, d, rooms) <==> booked + rooms <= capacity[h];
    assert Reaction(names, fmt, log, items, capacity, req) == Answer(log, fmt, capacity, req);
  }

  // ---------- Writing to the cache ----------

  lemma SetCapacity(
    names: Names, fmt: Calendar, log: seq<Row>, capacity: map<string, int>, items: map<string, int>, h: string)
    requires IsCalendar(fmt) && CapsRight(capacity, items) && h in capacity
    ensures SameLookups(names, fmt, log, items, items[CapKey(h) := capacity[h]])
    ensures CapsRight(capacity, items[CapKey(h) := capacity[h]])
  {
    hide CapKey, CountKey, CountOf, IsCalendar;
    var next := items[CapKey(h) := capacity[h]];
    forall other, d | EndsNight(d)
      ensures Lookup(names, fmt, log, items, other, d) == Lookup(names, fmt, log, next, other, d)
    {
      KeysDistinct(fmt, other, d, h, d);
    }
    forall other | CapKey(other) in next ensures other in capacity && next[CapKey(other)] == capacity[other] {
      if CapKey(other) == CapKey(h) { CapKeysDistinct(other, h); }
    }
  }

  /** Writing down what the server gets for a night. */
  lemma SetCount(
    names: Names, fmt: Calendar, log: seq<Row>, capacity: map<string, int>, items: map<string, int>, h: string,
    d: int, count: int)
    requires IsCalendar(fmt) && CapsRight(capacity, items)
    requires EndsNight(d) && count == Lookup(names, fmt, log, items, h, d)
    ensures SameLookups(names, fmt, log, items, items[CountKey(fmt, h, d) := count])
    ensures CapsRight(capacity, items[CountKey(fmt, h, d) := count])
  {
    hide CapKey, CountKey, CountOf, IsCalendar;
    var next := items[CountKey(fmt, h, d) := count];
    forall other, e | EndsNight(e)
      ensures Lookup(names, fmt, log, items, other, e) == Lookup(names, fmt, log, next, other, e)
    {
      KeysDistinct(fmt, h, d, other, e);
    }
    forall other | CapKey(other) in next ensures other in capacity && next[CapKey(other)] == capacity[other] {
      KeysDistinct(fmt, h, d, other, d);
    }
  }

  /** The counts that an accepted stay writes: for each of its nights, what the server got with the stay's rooms. */
  ghost predicate StayCounts(
    counts: map<string, int>, names: Names, fmt: Calendar, log: seq<Row>, items: map<string, int>,
    h: string, inDay: int, outDay: int, rooms: int)
  {
    && (forall d :: inDay < d <= outDay ==>
          && CountKey(fmt, h, d) in counts
          && counts[CountKey(fmt, h, d)] == Lookup(names, fmt, log, items, h, d) + rooms)
    && (forall k :: k in counts ==> exists d :: inDay < d <= outDay && k == CountKey(fmt, h, d))
  }

  lemma OneMoreNight(
    counts: map<string, int>, names: Names, fmt: Calendar, log: seq<Row>, items: map<string, int>,
    h: string, inDay: int, outDay: int, rooms: int)
    requires IsCalendar(fmt) && 0 <= inDay <= outDay && EndsNight(outDay + 1)
    requires StayCounts(counts, names, fmt, log, items, h, inDay, outDay, rooms)
    ensures var last := outDay + 1;
            var next := counts[CountKey(fmt, h, last) := Lookup(names, fmt, log, items, h, last) + rooms];
            StayCounts(next, names, fmt, log, items, h, inDay, last, rooms)
  {
    hide CountKey, Lookup, IsCalendar;
    var last := outDay + 1;
    var next := counts[CountKey(fmt, h, last) := Lookup(names, fmt, log, items, h, last) + rooms];
    forall d | inDay < d <= last
      ensures CountKey(fmt, h, d) in next && next[CountKey(fmt, h, d)] == Lookup(names, fmt, log, items, h, d) + rooms
    {
      KeysDistinct(fmt, h, d, h, last);
    }
    forall k | k in next ensures exists d :: inDay < d <= last && k == CountKey(fmt, h, d) {
      if k in counts {
        var d :| inDay < d <= outDay && k == CountKey(fmt, h, d);
        assert inDay < d <= last;
      }
    }
  }

  /** The names that a server may use in its queries. */
  predicate KnownNames(names: Names) {
    names == AS_STORED || names == AS_WRITTEN
  }

  /**
   Writing the counts of a stay and inserting its rows add the stay's rooms to what the server gets for
   each of its nights and change nothing else that it gets, under either naming.
   */
  lemma StayShiftsLookups(
    names: Names, fmt: Calendar, log: seq<Row>, items: map<string, int>, counts: map<string, int>,
    h: string, customer: string, inDay: int, outDay: int, rooms: int, other: string, e: int)
    requires KnownNames(names) && IsCalendar(fmt) && 0 <= inDay && outDay < DAYS && EndsNight(e)
    requires StayCounts(counts, names, fmt, log, items, h, inDay, outDay, rooms)
    ensures var after := log + Rows(fmt, h, customer, inDay, outDay, rooms);
            Lookup(names, fmt, after, items + counts, other, e) ==
              Lookup(names, fmt, log, items, other, e) + if other == h && inDay < e <= outDay then rooms else 0
  {
    hide CountKey, Booked, CountOf, Rows, IsCalendar;
    var rows := Rows(fmt, h, customer, inDay, outDay, rooms);
    BookedConcat(log, rows, fmt, other, e);
    RowsBook(fmt, h, customer, inDay, outDay, rooms, other, e);
    QueryFinds(log, fmt, other, e);
    QueryFinds(log + rows, fmt, other, e);
    if CountKey(fmt, other, e) in counts {
      var d :| inDay < d <= outDay && CountKey(fmt, other, e) == CountKey(fmt, h, d);
      KeysDistinct(fmt, other, e, h, d);
    }
  }

  lemma StayKeepsCaps(
    capacity: map<string, int>, counts: map<string, int>, names: Names, fmt: Calendar, log: seq<Row>,
    items: map<string, int>,
    h: string, inDay: int, outDay: int, rooms: int)
    requires IsCalendar(fmt) && 0 <= inDay && outDay < DAYS && CapsRight(capacity, items)
    requires StayCounts(counts, names, fmt, log, items, h, inDay, outDay, rooms)
    ensures CapsRight(capacity, items + counts)
  {
    hide CapKey, CountKey, Lookup, IsCalendar;
    forall other | CapKey(other) in items + counts
      ensures other in capacity && (items + counts)[CapKey(other)] == capacity[other]
    {
      if CapKey(other) in counts {
        var d :| inDay < d <= outDay && CapKey(other) == CountKey(fmt, h, d);
        KeysDistinct(fmt, h, d, other, d);
      }
    }
  }

  lemma SameStayCounts(
    counts: map<string, int>, names: Names, fmt: Calendar, log: seq<Row>, items: map<string, int>,
    other: map<string, int>,
    h: string, inDay: int, outDay: int, rooms: int)
    requires StayCounts(counts, names, fmt, log, items, h, inDay, outDay, rooms)
    requires SameLookups(names, fmt, log, items, other) && 0 <= inDay && outDay < DAYS
    ensures StayCounts(counts, names, fmt, log, other, h, inDay, outDay, rooms)
  {
    hide Lookup, CountKey;
    forall d | inDay < d <= outDay
      ensures CountKey(fmt, h, d) in counts
      ensures counts[CountKey(fmt, h, d)] == Lookup(names, fmt, log, other, h, d) + rooms
    {
      assert EndsNight(d) && Lookup(names, fmt, log, items, h, d) == Lookup(names, fmt, log, other, h, d);
    }
  }

  /** What the server gets for each night has changed by what the reply adds to it. */
  ghost predicate Shifted(
    names: Names, fmt: Calendar, log: seq<Row>, items: map<string, int>, log': seq<Row>, items': map<string, int>,
    req: Request, reply: Reply)
  {
    forall h, d :: EndsNight(d) ==>
      Lookup(names, fmt, log', items', h, d) == Lookup(names, fmt, log, items, h, d) + Added(req, reply, h, d)
  }

  lemma RefusalShifts(
    names: Names, fmt: Calendar, log: seq<Row>, items: map<string, int>, other: map<string, int>, req: Request,
    reply: Reply)
    requires SameLookups(names, fmt, log, items, other) && reply != Accepted
    ensures Shifted(names, fmt, log, items, log, other, req, reply)
  {
    hide Lookup;
    forall h, d | EndsNight(d)
      ensures Lookup(names, fmt, log, other, h, d) == Lookup(names, fmt, log, items, h, d) + Added(req, reply, h, d)
    {
    }
  }

  /** An accepted stay shifts what the server got before its check. */
  lemma StayShifts(
    names: Names, fmt: Calendar, log: seq<Row>, before: map<string, int>, items: map<string, int>,
    counts: map<string, int>,
    req: Request)
    requires KnownNames(names) && IsCalendar(fmt) && SameLookups(names, fmt, log, before, items) && req.hotelIds != []
    requires StayCounts(counts, names, fmt, log, items, req.hotelIds[0], req.inDay, req.outDay, req.rooms)
    ensures Shifted(names, fmt, log, before, LogWith(log, fmt, req, Accepted), items + counts, req, Accepted)
  {
    hide Lookup, CountKey, IsCalendar, StayCounts, Rows;
    var after := LogWith(log, fmt, req, Accepted);
    forall h, d | EndsNight(d)
      ensures Lookup(names, fmt, after, items + counts, h, d) ==
                Lookup(names, fmt, log, before, h, d) + Added(req, Accepted, h, d)
    {
      assert Lookup(names, fmt, log, before, h, d) == Lookup(names, fmt, log, items, h, d);
      StayShiftsLookups(names, fmt, log, items, counts, req.hotelIds[0], req.customerName,
                        req.inDay, req.outDay, req.rooms, h, d);
    }
  }

  /** The log shifts alike: a server that got what is booked gets it afterwards. */
  lemma ShiftKeepsRight(
    names: Names, fmt: Calendar, log: seq<Row>, items: map<string, int>, items': map<string, int>, req: Request,
    reply: Reply)
    requires IsCalendar(fmt)
    requires Shifted(names, fmt, log, items, LogWith(log, fmt, req, reply), items', req, reply)
    ensures Right(names, fmt, log, items) ==> Right(names, fmt, LogWith(log, fmt, req, reply), items')
  {
    hide Lookup, IsCalendar, LogWith, Booked, Added;
    if Right(names, fmt, log, items) {
      var log' := LogWith(log, fmt, req, reply);
      forall h, d | EndsNight(d) ensures Lookup(names, fmt, log', items', h, d) == Booked(log', fmt, h, d) {
        ReplyEffect(log, fmt, req, reply, h, d);
        assert Lookup(names, fmt, log, items, h, d) == Booked(log, fmt, h, d);
        assert Lookup(names, fmt, log', items', h, d) == Lookup(names, fmt, log, items, h, d) + Added(req, reply, h, d);
      }
    }
  }

  /** A server that gets what is booked answers as it should. */
  lemma RightReacts(
    names: Names, fmt: Calendar, log: seq<Row>, items: map<string, int>, capacity: map<string, int>, req: Request)
    requires Right(names, fmt, log, items)
    ensures Reaction(names, fmt, log, items, capacity, req) == Answer(log, fmt, capacity, req)
  {
    AnswersRightIff(names, fmt, log, items, capacity);
  }

  // ---------- Losing entries ----------

  /** Which entries a cache may lose, by key and value. */
  type Policy = (string, int) -> bool

  /** `left` is what a loss leaves of the cache. */
  ghost predicate Remains(mayLose: Policy, items: map<string, int>, left: map<string, int>) {
    && (forall k :: k in left ==> k in items && left[k] == items[k])
    && (forall k :: k in items && k !in left ==> mayLose(k, items[k]))
  }

  /** No count other than zero may be lost. */
  ghost predicate KeepsBookings(fmt: Calendar, mayLose: Policy) {
    forall h, d, n :: EndsNight(d) && mayLose(CountKey(fmt, h, d), n) ==> n == 0
  }

  /** Capacities and counts of zero. */
  const CAPACITIES_AND_ZEROES: Policy := (k, n) => n == 0 || (|k| >= 4 && k[|k| - 4..] == "_cap")

  /** A cache that loses nothing else keeps the bookings. */
  lemma CapacitiesMayBeLost(fmt: Calendar)
    requires IsCalendar(fmt)
    ensures KeepsBookings(fmt, CAPACITIES_AND_ZEROES)
  {
    forall h, d, n | EndsNight(d) && CAPACITIES_AND_ZEROES(CountKey(fmt, h, d), n) ensures n == 0 {
      var k := CountKey(fmt, h, d);
      CountKeyTail(fmt, h, d);
      assert k[|k| - 1] == k[|k| - 10..][9];
      assert k[|k| - 4..][3] == k[|k| - 1];
    }
  }

  lemma CapsRemain(mayLose: Policy, capacity: map<string, int>, items: map<string, int>, left: map<string, int>)
    requires CapsRight(capacity, items) && Remains(mayLose, items, left)
    ensures CapsRight(capacity, left)
  {
    hide CapKey;
  }

  lemma RemainsAll(mayLose: Policy, items: map<string, int>, left: map<string, int>)
    requires Remains(mayLose, items, left)
    ensures Remains((_, _) => true, items, left)
  {
  }

  /** With the stored names, nobody notices a loss from a right cache. */
  lemma LossUnnoticed(fmt: Calendar, log: seq<Row>, items: map<string, int>, left: map<string, int>)
    requires Right(AS_STORED, fmt, log, items) && Remains((_, _) => true, items, left)
    ensures SameLookups(AS_STORED, fmt, log, items, left)
  {
    hide CountKey, Booked, CountOf;
    forall h, d | EndsNight(d)
      ensures Lookup(AS_STORED, fmt, log, items, h, d) == Lookup(AS_STORED, fmt, log, left, h, d)
    {
      assert Lookup(AS_STORED, fmt, log, items, h, d) == Booked(log, fmt, h, d);
      QueryFinds(log, fmt, h, d);
    }
  }

  /** With the names as written, nobody notices a loss that keeps the bookings, from any cache. */
  lemma ZeroLossUnnoticed(
    mayLose: Policy, fmt: Calendar, log: seq<Row>, items: map<string, int>, left: map<string, int>)
    requires KeepsBookings(fmt, mayLose) && Remains(mayLose, items, left)
    ensures SameLookups(AS_WRITTEN, fmt, log, items, left)
  {
    hide CountKey, CountOf;
    forall h, d | EndsNight(d)
      ensures Lookup(AS_WRITTEN, fmt, log, items, h, d) == Lookup(AS_WRITTEN, fmt, log, left, h, d)
    {
      QueryFinds(log, fmt, h, d);
    }
  }

  /**
   With the names as written, the miss query finds nothing: a right cache stays right exactly if it
   loses no count of a night that has bookings.
   */
  lemma LossKeepsRightAsWrittenIff(fmt: Calendar, log: seq<Row>, items: map<string, int>, left: map<string, int>)
    requires Right(AS_WRITTEN, fmt, log, items) && Remains((_, _) => true, items, left)
    ensures Right(AS_WRITTEN, fmt, log, left) <==>
              forall h, d :: EndsNight(d) && CountKey(fmt, h, d) in items && items[CountKey(fmt, h, d)] != 0 ==>
                CountKey(fmt, h, d) in left
  {
    hide CountKey, Booked, CountOf;
    forall h, d | EndsNight(d)
      ensures Lookup(AS_WRITTEN, fmt, log, left, h, d) == Booked(log, fmt, h, d) <==>
                (CountKey(fmt, h, d) in items && items[CountKey(fmt, h, d)] != 0 ==> CountKey(fmt, h, d) in left)
    {
      assert Lookup(AS_WRITTEN, fmt, log, items, h, d) == Booked(log, fmt, h, d);
      QueryFinds(log, fmt, h, d);
    }
    if Right(AS_WRITTEN, fmt, log, left) {
      forall h, d | EndsNight(d) && CountKey(fmt, h, d) in items && items[CountKey(fmt, h, d)] != 0
        ensures CountKey(fmt, h, d) in left
      {
        assert Lookup(AS_WRITTEN, fmt, log, left, h, d) == Booked(log, fmt, h, d);
      }
    }
  }

  ghost predicate NothingBooked(log: seq<Row>, fmt: Calendar) {
    forall h, d :: EndsNight(d) ==> Booked(log, fmt, h, d) == 0
  }

  /**
   Before anything is cached, the server gets what is booked exactly if it queries by the stored names
   or nothing is.
   */
  lemma EmptyCacheIsRightIff(names: Names, fmt: Calendar, log: seq<Row>)
    requires KnownNames(names)
    ensures Right(names, fmt, log, map[]) <==> names == AS_STORED || NothingBooked(log, fmt)
  {
    hide CountKey, Booked, CountOf;
    NamesDiffer();
    forall h, d
      ensures Lookup(names, fmt, log, map[], h, d) == Booked(log, fmt, h, d) <==>
                names == AS_STORED || Booked(log, fmt, h, d) == 0
    {
      QueryFinds(log, fmt, h, d);
    }
    if Right(names, fmt, log, map[]) {
      forall h, d | EndsNight(d) ensures names == AS_STORED || Booked(log, fmt, h, d) == 0 {
        var got := Lookup(names, fmt, log, map[], h, d);
        assert got == Booked(log, fmt, h, d);
      }
    }
  }

  lemma NamesDiffer()
    ensures AS_STORED != AS_WRITTEN
  {
    assert AS_STORED.inName[2] == 'd' && AS_WRITTEN.inName[2] == 'D';
  }
}

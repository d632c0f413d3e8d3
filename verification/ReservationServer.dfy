/** The reservation server: a write-through cache over the log, checked against capacities. */
module ReservationServer {
  import opened Dates
  import opened Options
  import opened ReservationLog
  import opened ReservationCache

  /** The memory cache.  Whenever it is asked, it may have lost any entries that its policy lets it lose. */
  class Memcached {
    const mayLose: Policy
    var items: map<string, int>

    constructor (mayLose: Policy)
      ensures items == map[] && this.mayLose == mayLose
    {
      this.mayLose := mayLose;
      items := map[];
    }

    method Get(key: string) returns (item: Option<int>)
      modifies this
      ensures Remains(mayLose, old(items), items)
      ensures item == if key in items then Some(items[key]) else None
    {
      var lost: set<string> := *;
      items := map k | k in items && !(k in lost && mayLose(k, items[k])) :: items[k];
      item := if key in items then Some(items[key]) else None;
    }

    method Set(key: string, value: int)
      modifies this
      ensures items == old(items)[key := value]
    {
      items := items[key := value];
    }

    /** Loses one entry, whatever the policy. */
    method Evict(key: string)
      modifies this
      ensures items == old(items) - {key}
    {
      items := items - {key};
    }
  }

  class Server {
    const memc: Memcached
    const fmt: Calendar
    const names: Names
    const capacity: map<string, int>
    var log: seq<Row>

    constructor (memc: Memcached, fmt: Calendar, names: Names, capacity: map<string, int>, log: seq<Row>)
      requires IsCalendar(fmt) && KnownNames(names) && memc.items == map[]
      requires names == AS_WRITTEN ==> KeepsBookings(fmt, memc.mayLose)
      ensures this.memc == memc && this.fmt == fmt && this.names == names && this.capacity == capacity
      ensures this.log == log
      ensures Consistent()
      ensures Valid() <==> names == AS_STORED || NothingBooked(log, fmt)
    {
      this.memc, this.fmt, this.names, this.capacity, this.log := memc, fmt, names, capacity, log;
      new;
      EmptyCacheIsRightIff(names, fmt, log);
    }

    /**
     No loss can go noticed: the queries find what a right cache loses, or they find nothing and the
     cache loses no bookings.
     */
    ghost predicate Consistent()
      reads this, memc
    {
      && IsCalendar(fmt) && KnownNames(names)
      && CapsRight(capacity, memc.items)
      && (names == AS_STORED ==> Right(names, fmt, log, memc.items))
      && (names == AS_WRITTEN ==> KeepsBookings(fmt, memc.mayLose))
    }

    /** Moreover, the server gets what is booked. */
    ghost predicate Valid()
      reads this, memc
    {
      Consistent() && Right(names, fmt, log, memc.items)
    }

    /** Asks the cache; whatever it has lost makes no difference to what the server gets. */
    method Ask(key: string) returns (item: Option<int>)
      requires Consistent()
      modifies memc
      ensures Consistent()
      ensures SameLookups(names, fmt, log, old(memc.items), memc.items)
      ensures item == if key in memc.items then Some(memc.items[key]) else None
    {
      hide CapsRight, IsCalendar, KeepsBookings, SameLookups, Right;
      ghost var before := memc.items;
      item := memc.Get(key);
      if names == AS_STORED {
        RemainsAll(memc.mayLose, before, memc.items);
        LossUnnoticed(fmt, log, before, memc.items);
      } else {
        ZeroLossUnnoticed(memc.mayLose, fmt, log, before, memc.items);
      }
      CapsRemain(memc.mayLose, capacity, before, memc.items);
      StillRight(names, fmt, log, before, memc.items);
    }

    /** What the server gets for the night that ends on day `d`, from the cache or else from the log. */
    method Count(h: string, d: int) returns (count: int, hit: bool)
      requires Consistent() && EndsNight(d)
      modifies memc
      ensures Consistent()
      ensures SameLookups(names, fmt, log, old(memc.items), memc.items)
      ensures count == Lookup(names, fmt, log, old(memc.items), h, d)
      ensures old(Valid()) ==> Valid() && count == Booked(log, fmt, h, d)
    {
      hide Booked, CountOf, CountKey, CapKey, CapsRight, IsCalendar, KeepsBookings, Right;
      ghost var before := memc.items;
      var item := Ask(CountKey(fmt, h, d));
      if item.Some? {
        count, hit := item.value, true;
      } else {
        count, hit := CountOf(log, NightFilter(names, fmt, h, d)), false;
      }
      assert Lookup(names, fmt, log, before, h, d) == Lookup(names, fmt, log, memc.items, h, d);
      StillRight(names, fmt, log, before, memc.items);
      RightAt(names, fmt, log, memc.items, h, d);
    }

    /** The capacity of a hotel, from the cache or else from the table; None if it is in neither. */
    method Capacity(h: string) returns (cap: Option<int>)
      requires Consistent()
      modifies memc
      ensures Consistent()
      ensures SameLookups(names, fmt, log, old(memc.items), memc.items)
      ensures cap == if h in capacity then Some(capacity[h]) else None
      ensures old(Valid()) ==> Valid()
    {
      hide Right, IsCalendar, KeepsBookings, SameLookups;
      ghost var before := memc.items;
      cap := Ask(CapKey(h));
      if cap.None? && h in capacity {
        ghost var between := memc.items;
        SetCapacity(names, fmt, log, capacity, memc.items, h);
        memc.Set(CapKey(h), capacity[h]);
        cap := Some(capacity[h]);
        SameThrough(names, fmt, log, before, between, memc.items);
      }
      StillRight(names, fmt, log, before, memc.items);
    }

    /**
     The check of a reservation, night by night: the answer, and for an accepted stay the counts to
     write.  It changes nothing of what the server gets.
     */
    method CheckStay(req: Request) returns (reply: Reply, counts: map<string, int>)
      requires Consistent() && req.hotelIds != []
      modifies memc
      ensures Consistent()
      ensures SameLookups(names, fmt, log, old(memc.items), memc.items)
      ensures reply == Reaction(names, fmt, log, old(memc.items), capacity, req)
      ensures reply == Accepted ==>
          StayCounts(counts, names, fmt, log, old(memc.items), req.hotelIds[0], req.inDay, req.outDay, req.rooms)
    {
      hide Right, CapsRight, Lookup, CountKey, IsCalendar, KeepsBookings, Booked, SameLookups;
      ghost var before := memc.items;
      SameAsItself(names, fmt, log, before);
      var hotelId := req.hotelIds[0];
      var inDay: int := req.inDay;
      counts := map[];
      while inDay < req.outDay
        invariant Consistent() && SameLookups(names, fmt, log, before, memc.items)
        invariant req.inDay <= inDay && (inDay <= req.outDay || inDay == req.inDay)
        invariant inDay > req.inDay ==> hotelId in capacity
        invariant forall d :: req.inDay < d <= inDay ==>
            Lookup(names, fmt, log, before, hotelId, d) + req.rooms <= capacity[hotelId]
        invariant StayCounts(counts, names, fmt, log, before, hotelId, req.inDay, inDay, req.rooms)
        decreases req.outDay - inDay
      {
        hide StayCounts, Consistent;
        OneMoreNight(counts, names, fmt, log, before, hotelId, req.inDay, inDay, req.rooms);
        inDay := inDay + 1;
        ghost var asked := memc.items;
        SameAt(names, fmt, log, before, asked, hotelId, inDay);
        var count, _ := Count(hotelId, inDay);
        SameThrough(names, fmt, log, before, asked, memc.items);
        ghost var counted := memc.items;
        counts := counts[CountKey(fmt, hotelId, inDay) := count + req.rooms];
        var hotelCap := Capacity(hotelId);
        SameThrough(names, fmt, log, before, counted, memc.items);
        if hotelCap.None? {
          return Panicked, counts;
        }
        if count + req.rooms > hotelCap.value {
          assert !SeemsToFit(names, fmt, log, before, capacity[hotelId], hotelId, req.inDay, req.outDay, req.rooms);
          return Full, counts;
        }
      }
      assert req.inDay < req.outDay ==>
          SeemsToFit(names, fmt, log, before, capacity[hotelId], hotelId, req.inDay, req.outDay, req.rooms);
      EmptyStay(counts, names, fmt, log, before, hotelId, req.inDay, inDay, req.outDay, req.rooms);
      reply := Accepted;
    }

    method MakeReservation(req: Request) returns (reply: Reply)
      requires Consistent()
      modifies this, memc
      ensures Consistent()
      ensures reply == Reaction(names, fmt, old(log), old(memc.items), capacity, req)
      ensures log == LogWith(old(log), fmt, req, reply)
      ensures if reply == Accepted then req.hotelIds != [] && AddsStay(old(log), log, fmt, req) else log == old(log)
      ensures Shifted(names, fmt, old(log), old(memc.items), log, memc.items, req, reply)
      ensures old(Valid()) ==> Valid() && reply == Answer(old(log), fmt, capacity, req)
    {
      hide Right, CapsRight, Lookup, CountKey, IsCalendar, KeepsBookings, SameLookups, Shifted, Booked, StayCounts;
      ghost var before := memc.items;
      hide LogWith, Reaction, AddsStay;
      if Valid() {
        RightReacts(names, fmt, log, before, capacity, req);
      }
      if |req.hotelIds| == 0 {
        reply := Panicked;
        assert SameLookups(names, fmt, log, before, memc.items) by { SameAsItself(names, fmt, log, before); }
      } else {
        var memcDateNum;
        reply, memcDateNum := CheckStay(req);
        if reply == Accepted {
          var hotelId := req.hotelIds[0];
          SameStayCounts(memcDateNum, names, fmt, log, before, memc.items, hotelId, req.inDay, req.outDay, req.rooms);
          StayShifts(names, fmt, log, before, memc.items, memcDateNum, req);
          StayKeepsCaps(capacity, memcDateNum, names, fmt, log, memc.items, hotelId, req.inDay, req.outDay, req.rooms);
          WriteCounts(memcDateNum);
          InsertStay(hotelId, req);
        }
      }
      if reply != Accepted {
        RefusalShifts(names, fmt, log, before, memc.items, req, reply);
      }
      ShiftKeepsRight(names, fmt, old(log), before, memc.items, req, reply);
      InsertedRows(old(log), fmt, req, reply);
    }

    /** Writes the counts into the cache, in whatever order the map is walked. */
    method WriteCounts(counts: map<string, int>)
      modifies memc
      ensures memc.items == old(memc.items) + counts
    {
      var rest := counts.Keys;
      while rest != {}
        invariant rest <= counts.Keys
        invariant memc.items == old(memc.items) + (counts - rest)
        decreases rest
      {
        var key :| key in rest;
        rest := rest - {key};
        memc.Set(key, counts[key]);
      }
      assert counts - rest == counts;
    }

    /** Inserts one row for each night. */
    method InsertStay(hotelId: string, req: Request)
      modifies this`log
      ensures log == old(log) + Rows(fmt, hotelId, req.customerName, req.inDay, req.outDay, req.rooms)
      ensures |log| == |old(log)| + Nights(req)
      ensures forall k :: |old(log)| <= k < |log| ==>
          var d := req.inDay + k - |old(log)|; log[k] == Row(hotelId, req.customerName, fmt(d), fmt(d + 1), req.rooms)
    {
      var inDay: int := req.inDay;
      while inDay < req.outDay
        invariant req.inDay <= inDay && (inDay <= req.outDay || inDay == req.inDay)
        invariant log == old(log) + Rows(fmt, hotelId, req.customerName, req.inDay, inDay, req.rooms)
        decreases req.outDay - inDay
      {
        inDay := inDay + 1;
        log := log + [Row(hotelId, req.customerName, fmt(inDay - 1), fmt(inDay), req.rooms)];
      }
      RowsAre(fmt, hotelId, req.customerName, req.inDay, req.outDay, req.rooms);
    }

    /** The hotels with room for every night of the stay; None if the server panics. */
    method CheckAvailability(req: Request) returns (available: Option<seq<string>>)
      requires Valid()
      modifies memc
      ensures Valid() && log == old(log)
      ensures available.None? <==>
          req.inDay < req.outDay && exists i :: 0 <= i < |req.hotelIds| && req.hotelIds[i] !in capacity
      ensures available.Some? ==> available.value == Listed(log, fmt, capacity, req, req.hotelIds)
    {
      hide Right, CapsRight, Booked, CountKey, IsCalendar, KeepsBookings, SameLookups;
      var hotelIds: seq<string> := [];
      for i := 0 to |req.hotelIds|
        invariant Valid() && log == old(log)
        invariant hotelIds == Listed(log, fmt, capacity, req, req.hotelIds[..i])
        invariant req.inDay < req.outDay ==> forall j :: 0 <= j < i ==> req.hotelIds[j] in capacity
      {
        var room, panics := HasRoom(req, req.hotelIds[i]);
        if panics {
          return None;
        }
        assert req.hotelIds[..i + 1][..i] == req.hotelIds[..i];
        if room {
          hotelIds := hotelIds + [req.hotelIds[i]];
        }
      }
      assert req.hotelIds[..|req.hotelIds|] == req.hotelIds;
      available := Some(hotelIds);
    }

    /** Writes down what the server got for a night. */
    method NoteCount(h: string, d: int, count: int)
      requires Valid() && EndsNight(d) && count == Booked(log, fmt, h, d)
      modifies memc
      ensures Valid()
      ensures SameLookups(names, fmt, log, old(memc.items), memc.items)
    {
      hide CapsRight, Booked, CountKey, IsCalendar, KeepsBookings, SameLookups;
      ghost var before := memc.items;
      assert Lookup(names, fmt, log, before, h, d) == count;
      SetCount(names, fmt, log, capacity, before, h, d, count);
      memc.Set(CountKey(fmt, h, d), count);
      hide Right;
      StillRight(names, fmt, log, before, memc.items);
    }

    /** One hotel, night by night, writing missed counts to the cache. */
    method HasRoom(req: Request, hotelId: string) returns (room: bool, panics: bool)
      requires Valid()
      modifies memc
      ensures Valid() && log == old(log)
      ensures panics <==> req.inDay < req.outDay && hotelId !in capacity
      ensures !panics ==> (room <==> Available(log, fmt, capacity, req, hotelId))
    {
      hide Right, CapsRight, Booked, CountKey, IsCalendar, KeepsBookings, SameLookups;
      room, panics := false, false;
      var inDay: int := req.inDay;
      while inDay < req.outDay
        invariant Valid() && log == old(log)
        invariant req.inDay <= inDay && (inDay <= req.outDay || inDay == req.inDay)
        invariant inDay > req.inDay ==> hotelId in capacity
        invariant forall d :: req.inDay < d <= inDay ==> Booked(log, fmt, hotelId, d) + req.rooms <= capacity[hotelId]
        invariant room <==> req.inDay < inDay && inDay == req.outDay
        decreases req.outDay - inDay
      {
        inDay := inDay + 1;
        var count, hit := Count(hotelId, inDay);
        if !hit {
          NoteCount(hotelId, inDay, count);
        }
        var hotelCap := Capacity(hotelId);
        if hotelCap.None? {
          return false, true;
        }
        if count + req.rooms > hotelCap.value {
          assert !Fits(log, fmt, capacity[hotelId], hotelId, req.inDay, req.outDay, req.rooms);
          return false, false;
        }
        if inDay == req.outDay {
          room := true;
        }
      }
    }
  }

  lemma SameAsItself(names: Names, fmt: Calendar, log: seq<Row>, items: map<string, int>)
    ensures SameLookups(names, fmt, log, items, items)
  {
  }

  lemma EmptyStay(
    counts: map<string, int>, names: Names, fmt: Calendar, log: seq<Row>, items: map<string, int>,
    h: string, inDay: int, reached: int, outDay: int, rooms: int)
    requires StayCounts(counts, names, fmt, log, items, h, inDay, reached, rooms)
    requires reached == outDay || (reached == inDay && outDay <= inDay)
    ensures StayCounts(counts, names, fmt, log, items, h, inDay, outDay, rooms)
  {
  }

  // ---------- Whole runs ----------

  /** What a client may ask for, one request at a time. */
  datatype Op = Make(req: Request) | Check(req: Request)

  function Reservations(ops: seq<Op>): seq<Request> {
    if ops == [] then []
    else
      var before, last := Reservations(ops[..|ops| - 1]), ops[|ops| - 1];
      if last.Make? then before + [last.req] else before
  }

  /**
   Every run of the server, whatever its cache loses on the way, keeps the log that the reservations
   alone would, never overbooks, and leaves only right counts and capacities in the cache.
   */
  method Run(server: Server, ops: seq<Op>)
    requires server.Valid() && WithinCapacity(server.log, server.fmt, server.capacity)
    modifies server, server.memc
    ensures server.Valid()
    ensures server.log == LogAfterAll(old(server.log), server.fmt, server.capacity, Reservations(ops))
    ensures WithinCapacity(server.log, server.fmt, server.capacity)
  {
    hide Server.Valid, Server.Consistent, WithinCapacity, Answer;
    ghost var start := server.log;
    for i := 0 to |ops|
      invariant server.Valid()
      invariant server.log == LogAfterAll(start, server.fmt, server.capacity, Reservations(ops[..i]))
    {
      assert ops[..i + 1][..i] == ops[..i];
      ghost var before := Reservations(ops[..i]);
      match ops[i]
      case Make(req) =>
        ValidIsConsistent(server);
        var _ := server.MakeReservation(req);
        assert (before + [req])[..|before|] == before;
      case Check(req) =>
        var _ := server.CheckAvailability(req);
    }
    assert ops[..|ops|] == ops;
    RunStaysWithin(server, start, ops);
  }

  lemma ValidIsConsistent(server: Server)
    requires server.Valid()
    ensures server.Consistent()
  {
  }

  lemma RunStaysWithin(server: Server, start: seq<Row>, ops: seq<Op>)
    requires server.Valid() && WithinCapacity(start, server.fmt, server.capacity)
    ensures var log := LogAfterAll(start, server.fmt, server.capacity, Reservations(ops));
            WithinCapacity(log, server.fmt, server.capacity)
  {
    NeverOverbooked(start, server.fmt, server.capacity, Reservations(ops));
  }

  // ---------- A run that overbooks ----------

  /**
   With the names as written, losing any positive count overbooks, for every hotel, night and capacity:
   some rooms are booked, the count is lost, and then as many as there are in all are booked.
   */
  method Overbook(fmt: Calendar, h: string, d: int, capacity: int, rooms: int)
    returns (server: Server, first: Reply, second: Reply)
    requires IsCalendar(fmt) && EndsNight(d) && 0 < rooms <= capacity
    ensures server.fmt == fmt && server.names == AS_WRITTEN && server.capacity == map[h := capacity]
    ensures first == Accepted && second == Accepted
    ensures Booked(server.log, fmt, h, d) == rooms + capacity
    ensures !WithinCapacity(server.log, fmt, server.capacity)
  {
    hide CountKey, IsCalendar, LogWith, Booked, CapsRight, Answer, Reaction, Lookup, Shifted, CountOf, Right;
    var memc := new Memcached((_, _) => false);
    server := new Server(memc, fmt, AS_WRITTEN, map[h := capacity], []);
    EmptyLog(fmt);
    var some := Request("Alice", [h], d - 1, d, rooms);
    AllSeemsFree([], fmt, map[], h, d, capacity, some);
    first := server.MakeReservation(some);
    ReplyEffect([], fmt, some, first, h, d);
    ghost var log, items := server.log, memc.items;
    memc.Evict(CountKey(fmt, h, d));
    CapsRemain((_, _) => true, server.capacity, items, memc.items);
    var all := Request("Bob", [h], d - 1, d, capacity);
    AllSeemsFree(log, fmt, memc.items, h, d, capacity, all);
    second := server.MakeReservation(all);
    ReplyEffect(log, fmt, all, second, h, d);
  }

  /** Without a cached count, the queries as written leave all rooms of a night free. */
  lemma AllSeemsFree(
    log: seq<Row>, fmt: Calendar, items: map<string, int>, h: string, d: int, capacity: int, req: Request)
    requires EndsNight(d) && CountKey(fmt, h, d) !in items
    requires req.hotelIds == [h] && req.inDay == d - 1 && req.outDay == d && req.rooms <= capacity
    ensures Reaction(AS_WRITTEN, fmt, log, items, map[h := capacity], req) == Accepted
  {
    hide CountKey, CountOf;
    QueryFinds(log, fmt, h, d);
  }

  lemma EmptyLog(fmt: Calendar)
    ensures forall h, d :: Booked([], fmt, h, d) == 0
    ensures NothingBooked([], fmt)
  {
  }
}

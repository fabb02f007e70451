/** The binding tables of the NAT64: which device inside is behind which port
    outside. */
module NatTable {
  import opened Bytes
  import opened Options

  const ROWS := 10
  const FIRST_PORT := 0xFBFF
  const TIMEOUT := 45000

  type Ipv4 = a: seq<byte> | |a| == 4 witness Blank(4)

  type Ipv6 = a: seq<byte> | |a| == 16 witness Blank(16)

  /** A conversation: the peer outside and the device inside. */
  datatype Key = Key(ipv4: Ipv4, port4: u16, port6: u16, ipv6: Ipv6)

  datatype Row = Row(key: Key, pseudoport: u16, timeout: u32, inUse: bool)

  /** What every operation keeps: row `i` has pseudoport `FIRST_PORT + i`, no two
      rows in use are about the same conversation, and none has timed out. */
  predicate Sound(rows: seq<Row>) {
    && |rows| == ROWS
    && (forall i | 0 <= i < ROWS :: rows[i].pseudoport == FIRST_PORT + i && (rows[i].inUse ==> rows[i].timeout <= TIMEOUT))
    && (forall i, j | 0 <= i < j < ROWS && rows[i].inUse && rows[j].inUse :: rows[i].key != rows[j].key)
  }

  predicate IsFor(r: Row, k: Key) {
    r.inUse && r.key == k
  }

  predicate IsReply(r: Row, ipv4: Ipv4, port4: u16, pseudoport: u16) {
    r.inUse && r.pseudoport == pseudoport && r.key.port4 == port4 && r.key.ipv4 == ipv4
  }

  /** The first row with a property. */
  function First(rows: seq<Row>, p: Row -> bool): (r: Option<nat>)
    ensures r.Some? ==> r.value < |rows| && p(rows[r.value]) && forall j | 0 <= j < r.value :: !p(rows[j])
    ensures r.None? ==> forall j | 0 <= j < |rows| :: !p(rows[j])
  {
    if rows == [] then None
    else if p(rows[0]) then Some(0)
    else
      var rest := First(rows[1..], p);
      if rest.None? then
        assert forall j | 1 <= j < |rows| :: rows[j] == rows[1..][j - 1];
        None
      else
        assert forall j | 1 <= j < 1 + rest.value :: rows[j] == rows[1..][j - 1];
        Some(1 + rest.value)
  }

  /** The table with row `i` used again: only one kind of table notices. */
  function Used(rows: seq<Row>, i: nat, refreshes: bool): seq<Row>
    requires i < |rows|
  {
    if refreshes then rows[i := rows[i].(timeout := 0)] else rows
  }

  /** A packet goes out: the table after it, and the pseudoport to use. A known
      conversation keeps its port, a new one takes the first free row; 0 if there
      is none. */
  function Outbound(rows: seq<Row>, refreshes: bool, k: Key): (seq<Row>, u16) {
    var known := First(rows, (r: Row) => IsFor(r, k));
    if known.Some? then (Used(rows, known.value, refreshes), rows[known.value].pseudoport) else Taken(rows, k)
  }

  /** The first free row is taken; 0 if there is none. */
  function Taken(rows: seq<Row>, k: Key): (seq<Row>, u16) {
    var free := First(rows, (r: Row) => !r.inUse);
    if free.Some? then (rows[free.value := rows[free.value].(key := k, timeout := 0, inUse := true)], rows[free.value].pseudoport)
    else (rows, 0)
  }

  /** A packet comes in: the table after it, and the row it belongs to. */
  function Inbound(rows: seq<Row>, refreshes: bool, ipv4: Ipv4, port4: u16, pseudoport: u16): (seq<Row>, Option<nat>) {
    var found := First(rows, (r: Row) => IsReply(r, ipv4, port4, pseudoport));
    (if found.Some? then Used(rows, found.value, refreshes) else rows, found)
  }

  function Deleted(rows: seq<Row>, index: nat): seq<Row> {
    if index < |rows| then rows[index := rows[index].(inUse := false)] else rows
  }

  /** Time passes; what has timed out is deleted. */
  function Fed(r: Row, feed: u32): Row {
    var t := (r.timeout + feed) % 0x1_0000_0000;
    if r.inUse then r.(timeout := t, inUse := t <= TIMEOUT) else r
  }

  function AllFed(rows: seq<Row>, feed: u32): seq<Row> {
    seq(|rows|, i requires 0 <= i < |rows| => Fed(rows[i], feed))
  }

  datatype Event = Out(k: Key) | In(ipv4: Ipv4, port4: u16, pseudoport: u16) | Delete(index: nat) | Wait(feed: u32)

  function Step(rows: seq<Row>, refreshes: bool, e: Event): seq<Row> {
    match e
    case Out(k) => Outbound(rows, refreshes, k).0
    case In(ipv4, port4, pseudoport) => Inbound(rows, refreshes, ipv4, port4, pseudoport).0
    case Delete(index) => Deleted(rows, index)
    case Wait(feed) => AllFed(rows, feed)
  }

  function Steps(rows: seq<Row>, refreshes: bool, events: seq<Event>): seq<Row> {
    if events == [] then rows
    else Step(Steps(rows, refreshes, events[..|events| - 1]), refreshes, events[|events| - 1])
  }

  /** A packet that goes out gets the port of its conversation's row, or else of the
      first free row, which is given to it, or else 0. */
  lemma OutboundIs(rows: seq<Row>, refreshes: bool, k: Key)
    requires Sound(rows)
    ensures var (rows', port) := Outbound(rows, refreshes, k);
            && (forall i | 0 <= i < 10 && rows[i].inUse && rows[i].key == k ::
                  port == 0xFBFF + i && rows' == if refreshes then rows[i := rows[i].(timeout := 0)] else rows)
            && ((forall i | 0 <= i < 10 && rows[i].inUse :: rows[i].key != k) ==>
                  && (forall i | 0 <= i < 10 && !rows[i].inUse && (forall j | 0 <= j < i :: rows[j].inUse) ::
                        port == 0xFBFF + i && rows' == rows[i := Row(k, 0xFBFF + i, 0, true)])
                  && ((forall i | 0 <= i < 10 :: rows[i].inUse) ==> port == 0 && rows' == rows))
  {
  }

  /** A packet that comes in belongs to the row in use with its port and its peer,
      if there is one. */
  lemma InboundIs(rows: seq<Row>, refreshes: bool, ipv4: Ipv4, port4: u16, pseudoport: u16)
    requires Sound(rows)
    ensures var (rows', found) := Inbound(rows, refreshes, ipv4, port4, pseudoport);
            && (found.Some? ==> found.value < 10)
            && (forall i: nat | i < 10 :: found == Some(i) <==>
                  rows[i].inUse && pseudoport == 0xFBFF + i && rows[i].key.ipv4 == ipv4 && rows[i].key.port4 == port4)
            && rows' == if found.Some? && refreshes then rows[found.value := rows[found.value].(timeout := 0)] else rows
  {
  }

  lemma StepSound(rows: seq<Row>, refreshes: bool, e: Event)
    requires Sound(rows)
    ensures Sound(Step(rows, refreshes, e))
  {
    match e
    case Out(k) => OutSound(rows, refreshes, k);
    case In(ipv4, port4, pseudoport) => InSound(rows, refreshes, ipv4, port4, pseudoport);
    case Delete(index) =>
    case Wait(feed) => FedSound(rows, feed);
  }

  lemma UsedSound(rows: seq<Row>, i: nat, refreshes: bool)
    requires Sound(rows) && i < |rows|
    ensures Sound(Used(rows, i, refreshes))
  {
  }

  lemma OutSound(rows: seq<Row>, refreshes: bool, k: Key)
    requires Sound(rows)
    ensures Sound(Outbound(rows, refreshes, k).0)
  {
    hide Sound, Used, Taken;
    var known := First(rows, (r: Row) => IsFor(r, k));
    if known.Some? {
      UsedSound(rows, known.value, refreshes);
    } else {
      TakenSound(rows, k);
    }
  }

  /** A conversation that is new can be given a row. */
  lemma TakenSound(rows: seq<Row>, k: Key)
    requires Sound(rows) && forall j | 0 <= j < |rows| :: !IsFor(rows[j], k)
    ensures Sound(Taken(rows, k).0)
  {
  }

  lemma InSound(rows: seq<Row>, refreshes: bool, ipv4: Ipv4, port4: u16, pseudoport: u16)
    requires Sound(rows)
    ensures Sound(Inbound(rows, refreshes, ipv4, port4, pseudoport).0)
  {
    hide Sound, Used;
    var found := First(rows, (r: Row) => IsReply(r, ipv4, port4, pseudoport));
    if found.Some? {
      UsedSound(rows, found.value, refreshes);
    }
  }

  lemma FedSound(rows: seq<Row>, feed: u32)
    requires Sound(rows)
    ensures Sound(AllFed(rows, feed))
  {
  }

  /** How long a binding has been idle after an event, as far as the table can
      tell; none if the event ends it. */
  function Idle(refreshes: bool, k: Key, i: nat, t: u32, e: Event): Option<u32> {
    match e
    case Out(k') => Some(if refreshes && k' == k then 0 else t)
    case In(ipv4, port4, pseudoport) =>
      Some(if refreshes && ipv4 == k.ipv4 && port4 == k.port4 && pseudoport == FIRST_PORT + i then 0 else t)
    case Delete(index) => if index == i then None else Some(t)
    case Wait(feed) => var t' := (t + feed) % 0x1_0000_0000; if t' <= TIMEOUT then Some(t') else None
  }

  function IdleAfter(refreshes: bool, k: Key, i: nat, t: u32, events: seq<Event>): Option<u32> {
    if events == [] then Some(t)
    else
      var before := IdleAfter(refreshes, k, i, t, events[..|events| - 1]);
      if before.None? then None else Idle(refreshes, k, i, before.value, events[|events| - 1])
  }

  predicate Bound(rows: seq<Row>, k: Key, i: nat, t: u32) {
    i < |rows| && IsFor(rows[i], k) && rows[i].timeout == t
  }

  lemma StepBinds(rows: seq<Row>, refreshes: bool, k: Key, i: nat, t: u32, e: Event)
    requires Sound(rows) && Bound(rows, k, i, t)
    ensures var rows', t' := Step(rows, refreshes, e), Idle(refreshes, k, i, t, e);
            if t'.Some? then Bound(rows', k, i, t'.value) else i < |rows'| && !rows'[i].inUse
  {
  }

  /** While it is not ended, a binding stays in its row, whatever happens. */
  lemma {:induction false} StepsBind(rows: seq<Row>, refreshes: bool, k: Key, i: nat, t: u32, events: seq<Event>)
    requires Sound(rows) && Bound(rows, k, i, t)
    ensures Sound(Steps(rows, refreshes, events))
    ensures var idle := IdleAfter(refreshes, k, i, t, events);
            idle.Some? ==> Bound(Steps(rows, refreshes, events), k, i, idle.value)
  {
    hide Step, Idle;
    if events != [] {
      var n := |events| - 1;
      StepsBind(rows, refreshes, k, i, t, events[..n]);
      var before, idle := Steps(rows, refreshes, events[..n]), IdleAfter(refreshes, k, i, t, events[..n]);
      StepSound(before, refreshes, events[n]);
      if idle.Some? {
        StepBinds(before, refreshes, k, i, idle.value, events[n]);
      }
    }
  }

  /** What both directions find in the row of a binding. */
  lemma BoundFound(rows: seq<Row>, refreshes: bool, k: Key, i: nat, t: u32)
    requires Sound(rows) && Bound(rows, k, i, t)
    ensures Inbound(rows, refreshes, k.ipv4, k.port4, FIRST_PORT + i).1 == Some(i)
    ensures Outbound(rows, refreshes, k).1 == FIRST_PORT + i
  {
  }

  /** The pseudoport an outbound packet got leads replies back to where it came
      from, and further packets get it again, until the binding is deleted or
      times out, whatever happens in between. */
  lemma BindingStable(rows: seq<Row>, refreshes: bool, k: Key, events: seq<Event>)
    requires Sound(rows) && Outbound(rows, refreshes, k).1 != 0
    ensures var (rows1, p) := Outbound(rows, refreshes, k);
            && FIRST_PORT <= p < FIRST_PORT + ROWS && Bound(rows1, k, p - FIRST_PORT, rows1[p - FIRST_PORT].timeout)
            && (refreshes || (forall i | 0 <= i < ROWS :: !IsFor(rows[i], k)) ==> rows1[p - FIRST_PORT].timeout == 0)
            && (IdleAfter(refreshes, k, p - FIRST_PORT, rows1[p - FIRST_PORT].timeout, events).Some? ==>
                  var rows2 := Steps(rows1, refreshes, events);
                  && |rows2| == ROWS && Inbound(rows2, refreshes, k.ipv4, k.port4, p).1 == Some(p - FIRST_PORT)
                  && rows2[p - FIRST_PORT].key == k && Outbound(rows2, refreshes, k).1 == p)
  {
    hide Steps, IdleAfter, Outbound, Inbound, Sound, Bound;
    var (rows1, p) := Outbound(rows, refreshes, k);
    OutboundBinds(rows, refreshes, k);
    BindingHolds(rows1, refreshes, k, p - FIRST_PORT, rows1[p - FIRST_PORT].timeout, events);
  }

  lemma BindingHolds(rows: seq<Row>, refreshes: bool, k: Key, i: nat, t: u32, events: seq<Event>)
    requires Sound(rows) && Bound(rows, k, i, t)
    ensures IdleAfter(refreshes, k, i, t, events).Some? ==>
              var rows2 := Steps(rows, refreshes, events);
              && |rows2| == ROWS && Inbound(rows2, refreshes, k.ipv4, k.port4, FIRST_PORT + i).1 == Some(i)
              && rows2[i].key == k && Outbound(rows2, refreshes, k).1 == FIRST_PORT + i
  {
    hide Steps, IdleAfter, Outbound, Inbound;
    StepsBind(rows, refreshes, k, i, t, events);
    var idle := IdleAfter(refreshes, k, i, t, events);
    if idle.Some? {
      BoundFound(Steps(rows, refreshes, events), refreshes, k, i, idle.value);
    }
  }

  lemma OutboundBinds(rows: seq<Row>, refreshes: bool, k: Key)
    requires Sound(rows) && Outbound(rows, refreshes, k).1 != 0
    ensures var (rows1, p) := Outbound(rows, refreshes, k);
            && Sound(rows1) && |rows1| == ROWS && FIRST_PORT <= p < FIRST_PORT + ROWS
            && Bound(rows1, k, p - FIRST_PORT, rows1[p - FIRST_PORT].timeout)
            && (refreshes || (forall i | 0 <= i < ROWS :: !IsFor(rows[i], k)) ==> rows1[p - FIRST_PORT].timeout == 0)
  {
  }

  /** The event that ends a binding ends it at once: replies find nothing. */
  lemma BindingEnds(rows: seq<Row>, refreshes: bool, k: Key, i: nat, t: u32, events: seq<Event>, e: Event)
    requires Sound(rows) && Bound(rows, k, i, t)
    requires IdleAfter(refreshes, k, i, t, events).Some? && IdleAfter(refreshes, k, i, t, events + [e]).None?
    ensures Inbound(Steps(rows, refreshes, events + [e]), refreshes, k.ipv4, k.port4, FIRST_PORT + i).1 == None
  {
    hide Step, Idle;
    assert (events + [e])[..|events|] == events;
    StepsBind(rows, refreshes, k, i, t, events);
    var before, idle := Steps(rows, refreshes, events), IdleAfter(refreshes, k, i, t, events);
    StepSound(before, refreshes, e);
    StepBinds(before, refreshes, k, i, idle.value, e);
  }

  // ---- how long a binding lasts -----------------------------------------------

  /** The time since the last use of a binding, if uses count, after one more
      event. */
  function Since(refreshes: bool, k: Key, i: nat, before: nat, e: Event): nat {
    match e
    case Out(k') => if refreshes && k' == k then 0 else before
    case In(ipv4, port4, pseudoport) =>
      if refreshes && ipv4 == k.ipv4 && port4 == k.port4 && pseudoport == FIRST_PORT + i then 0 else before
    case Delete(_) => before
    case Wait(feed) => before + feed
  }

  /** The same after a series of events, starting from `t`. */
  function Elapsed(refreshes: bool, k: Key, i: nat, t: nat, events: seq<Event>): nat {
    if events == [] then t
    else Since(refreshes, k, i, Elapsed(refreshes, k, i, t, events[..|events| - 1]), events[|events| - 1])
  }

  /** Never deleted, and at no time idle for longer than the timeout. */
  predicate KeptAlive(refreshes: bool, k: Key, i: nat, t: nat, events: seq<Event>) {
    && Elapsed(refreshes, k, i, t, events) <= TIMEOUT
    && (events != [] ==>
          events[|events| - 1] != Delete(i) && KeptAlive(refreshes, k, i, t, events[..|events| - 1]))
  }

  /** No single step of the clock is so long that the 32-bit counter could wrap. */
  predicate NoWrap(events: seq<Event>) {
    forall n | 0 <= n < |events| :: events[n].Wait? ==> events[n].feed + TIMEOUT < 0x1_0000_0000
  }

  /** As long as the counter cannot wrap, a binding lasts exactly as long as it is
      kept alive: since last use for TCP, since its creation for UDP. */
  lemma {:induction false} LastsWhileAlive(refreshes: bool, k: Key, i: nat, t: u32, events: seq<Event>)
    requires t <= TIMEOUT && NoWrap(events)
    ensures var idle := IdleAfter(refreshes, k, i, t, events);
            && (idle.Some? <==> KeptAlive(refreshes, k, i, t, events))
            && (idle.Some? ==> idle.value == Elapsed(refreshes, k, i, t, events))
  {
    hide Idle, Since;
    if events != [] {
      var n := |events| - 1;
      assert forall m | 0 <= m < n :: events[..n][m] == events[m];
      LastsWhileAlive(refreshes, k, i, t, events[..n]);
      var before := IdleAfter(refreshes, k, i, t, events[..n]);
      if before.Some? {
        LastsOneMore(refreshes, k, i, before.value, events[n]);
      }
    }
  }

  /** The program's clock steps by 1000, so in the program the counter never wraps. */
  lemma ClockOfProgram(events: seq<Event>)
    requires forall n | 0 <= n < |events| :: events[n].Wait? ==> events[n].feed == 1000
    ensures NoWrap(events)
  {
  }

  lemma LastsOneMore(refreshes: bool, k: Key, i: nat, t: u32, e: Event)
    requires t <= TIMEOUT && (e.Wait? ==> e.feed + TIMEOUT < 0x1_0000_0000)
    ensures var idle, elapsed := Idle(refreshes, k, i, t, e), Since(refreshes, k, i, t, e);
            && (idle.Some? <==> e != Delete(i) && elapsed <= TIMEOUT)
            && (idle.Some? ==> idle.value == elapsed)
  {
  }

  /** A step of the clock ends a binding exactly if the 32-bit sum exceeds the
      timeout; a long enough step wraps around and makes it young again. */
  lemma ClockWraps(refreshes: bool, k: Key, i: nat, t: u32, feed: u32)
    requires 0 < t <= TIMEOUT
    ensures Idle(refreshes, k, i, t, Wait(feed)).Some? <==> t + feed <= TIMEOUT || t + feed >= 0x1_0000_0000
    ensures Idle(refreshes, k, i, t, Wait(0x1_0000_0000 - t)) == Some(0)
  {
  }

  class Table {
    const rows: array<Row>
    const refreshes: bool // does using a binding keep it alive? TCP: yes, UDP: no

    ghost predicate Valid()
      reads rows
    {
      Sound(rows[..])
    }

    constructor Init(refreshes: bool)
      ensures Valid() && fresh(rows) && this.refreshes == refreshes
      ensures forall i | 0 <= i < ROWS :: !rows[i].inUse
    {
      this.refreshes := refreshes;
      rows := new Row[ROWS](i requires 0 <= i < ROWS =>
        Row(Key([0, 0, 0, 0], 0, 0, seq(16, _ => 0)), FIRST_PORT + i, 0, false));
    }

    method Del(index: nat)
      requires Valid()
      modifies rows
      ensures Valid() && rows[..] == Deleted(old(rows[..]), index)
    {
      if index >= ROWS {
        return;
      }
      rows[index] := rows[index].(inUse := false);
    }

    method Feed(feed: u32)
      requires Valid()
      modifies rows
      ensures Valid() && rows[..] == AllFed(old(rows[..]), feed)
    {
      StepSound(rows[..], refreshes, Wait(feed));
      for i := 0 to ROWS
        invariant forall j | 0 <= j < i :: rows[j] == Fed(old(rows[j]), feed)
        invariant forall j | i <= j < ROWS :: rows[j] == old(rows[j])
      {
        if rows[i].inUse {
          rows[i] := rows[i].(timeout := (rows[i].timeout + feed) % 0x1_0000_0000);
          if rows[i].timeout > TIMEOUT {
            rows[i] := rows[i].(inUse := false);
          }
        }
      }
    }

    /** Takes the first free row, whether or not the conversation is known; 0 if
        there is none. */
    method Add(k: Key) returns (pseudoport: u16)
      requires rows.Length == ROWS
      modifies rows
      ensures (rows[..], pseudoport) == Taken(old(rows[..]), k)
      ensures old(Valid() && forall i | 0 <= i < ROWS :: !IsFor(rows[i], k)) ==> Valid()
    {
      hide Sound;
      ghost var was := rows[..];
      if Sound(was) && forall i | 0 <= i < |was| :: !IsFor(was[i], k) {
        TakenSound(was, k);
      }
      var freeIndex := 0;
      while freeIndex < ROWS && rows[freeIndex].inUse
        invariant freeIndex <= ROWS && forall j | 0 <= j < freeIndex :: was[j].inUse
      {
        freeIndex := freeIndex + 1;
      }
      if freeIndex >= ROWS {
        return 0;
      }
      assert !was[freeIndex].inUse;
      rows[freeIndex] := rows[freeIndex].(key := k);
      rows[freeIndex] := rows[freeIndex].(inUse := true);
      rows[freeIndex] := rows[freeIndex].(timeout := 0);
      pseudoport := rows[freeIndex].pseudoport;
      assert rows[..] == was[freeIndex := was[freeIndex].(key := k, timeout := 0, inUse := true)];
    }

    /** The pseudoport of a conversation, new or known; 0 if the table is full. */
    method FindOrAdd(k: Key) returns (pseudoport: u16)
      requires Valid()
      modifies rows
      ensures Valid() && (rows[..], pseudoport) == Outbound(old(rows[..]), refreshes, k)
    {
      ghost var was := rows[..];
      StepSound(was, refreshes, Out(k));
      for i := 0 to ROWS
        invariant rows[..] == was && forall j | 0 <= j < i :: !IsFor(was[j], k)
      {
        if IsFor(rows[i], k) {
          assert IsFor(was[i], k);
          if refreshes {
            rows[i] := rows[i].(timeout := 0);
          }
          return rows[i].pseudoport;
        }
      }
      pseudoport := Add(k);
    }

    /** The row a reply from outside belongs to, if any. */
    method Find(ipv4: Ipv4, port4: u16, pseudoport: u16) returns (found: Option<nat>)
      requires Valid()
      modifies rows
      ensures Valid() && (rows[..], found) == Inbound(old(rows[..]), refreshes, ipv4, port4, pseudoport)
    {
      ghost var was := rows[..];
      StepSound(was, refreshes, In(ipv4, port4, pseudoport));
      for i := 0 to ROWS
        invariant rows[..] == was && forall j | 0 <= j < i :: !IsReply(was[j], ipv4, port4, pseudoport)
      {
        if IsReply(rows[i], ipv4, port4, pseudoport) {
          assert IsReply(was[i], ipv4, port4, pseudoport);
          if refreshes {
            rows[i] := rows[i].(timeout := 0);
          }
          return Some(i);
        }
      }
      return None;
    }
  }
}

/** Giving the lamps on a DALI bus their short addresses. */
module Dali {
  import opened Options

  const TOP := 0xFF_FFFF // the highest 24-bit address
  const LAMPS := 64 // short addresses are 0 to 63

  const BROADCAST: nat := 0xFF
  const OFF: nat := 0x00
  const ON: nat := 0x05
  const RESET: nat := 0x20
  const TERMINATE: nat := 0xA1
  const INITIALISE: nat := 0xA5
  const RANDOMISE: nat := 0xA7
  const COMPARE: nat := 0xA9
  const WITHDRAW: nat := 0xAB
  const SEARCH_HIGH: nat := 0xB1
  const SEARCH_MIDDLE: nat := 0xB3
  const SEARCH_LOW: nat := 0xB5
  const PROGRAM_SHORT: nat := 0xB7

  // ---- the lamps (IEC 62386-102, special commands) ---------------------------

  /** The lamps on the bus, and what they do with what they hear. A COMPARE is
      answered if some lamp that has not been withdrawn has an address at most
      the search address. */
  class Bus {
    const drawn: seq<nat> // the addresses that RANDOMISE will give
    var address: seq<nat>
    var withdrawn: seq<bool>
    var short: seq<Option<nat>>
    var search: nat
    var open: bool // are addresses being given out?
    var answer: bool
    ghost var heard: seq<(nat, nat)> // all that has been sent

    predicate Valid()
      reads this
    {
      && |drawn| == |address| == |withdrawn| == |short| && search <= TOP
      && (forall i | 0 <= i < |short| :: short[i].Some? ==> short[i].value < LAMPS)
    }

    constructor (drawn: seq<nat>, short: seq<Option<nat>>)
      requires |short| == |drawn| && forall i | 0 <= i < |short| :: short[i].Some? ==> short[i].value < LAMPS
      ensures Valid() && this.drawn == drawn
    {
      this.drawn, this.short := drawn, short;
      address := seq(|drawn|, i => TOP);
      withdrawn := seq(|drawn|, i => false);
      search, open, answer := TOP, false, false;
      heard := [];
    }

    /** Does some lamp answer a COMPARE? */
    predicate Answered()
      requires Valid()
      reads this
    {
      open && exists i | 0 <= i < |address| :: !withdrawn[i] && address[i] <= search
    }

    method Send(addr: nat, cmd: nat)
      requires Valid() && addr < 256 && cmd < 256
      modifies this
      ensures Valid() && heard == old(heard) + [(addr, cmd)]
      ensures open == (if addr == INITIALISE then true else if addr == TERMINATE then false else old(open))
      ensures search == (if addr == SEARCH_HIGH then cmd * 0x1_0000 + old(search) % 0x1_0000
                         else if addr == SEARCH_MIDDLE then old(search) / 0x1_0000 * 0x1_0000 + cmd * 0x100 + old(search) % 0x100
                         else if addr == SEARCH_LOW then old(search) / 0x100 * 0x100 + cmd
                         else if addr == BROADCAST && cmd == RESET then TOP else old(search))
      ensures address == (if addr == RANDOMISE && old(open) then drawn
                          else if addr == BROADCAST && cmd == RESET then seq(|drawn|, i => TOP) else old(address))
      ensures forall i | 0 <= i < |drawn| ::
        withdrawn[i] == if addr == INITIALISE then false else old(withdrawn[i]) || (addr == WITHDRAW && old(open) && old(address[i] == search))
      ensures forall i | 0 <= i < |drawn| ::
        short[i] == if addr == PROGRAM_SHORT && old(open) && cmd % 2 == 1 && cmd / 2 < LAMPS && old(address[i] == search)
                    then Some(cmd / 2) else old(short[i])
      ensures answer == (addr == COMPARE && old(Answered()))
    {
      var n := |drawn|;
      answer := addr == COMPARE && Answered();
      heard := heard + [(addr, cmd)];
      if addr == BROADCAST && cmd == RESET {
        search := TOP;
        address := seq(n, i => TOP);
      } else if addr == INITIALISE {
        open := true;
        withdrawn := seq(n, i => false);
      } else if addr == TERMINATE {
        open := false;
      } else if addr == RANDOMISE && open {
        address := drawn;
      } else if addr == SEARCH_HIGH {
        search := cmd * 0x1_0000 + search % 0x1_0000;
      } else if addr == SEARCH_MIDDLE {
        search := search / 0x1_0000 * 0x1_0000 + cmd * 0x100 + search % 0x100;
      } else if addr == SEARCH_LOW {
        search := search / 0x100 * 0x100 + cmd;
      } else if addr == WITHDRAW && open {
        var w, a, x := withdrawn, address, search;
        withdrawn := seq(n, i requires 0 <= i < n => w[i] || a[i] == x);
      } else if addr == PROGRAM_SHORT && open && cmd % 2 == 1 && cmd / 2 < LAMPS {
        var s, a, x := short, address, search;
        short := seq(n, i requires 0 <= i < n => if a[i] == x then Some(cmd / 2) else s[i]);
      }
    }
  }

  // ---- who is to get which address --------------------------------------------

  function Below(all: set<nat>, a: nat): set<nat> {
    set x | x in all && x < a
  }

  function Elements(s: seq<nat>): set<nat> {
    set i | 0 <= i < |s| :: s[i]
  }

  /** How many addresses on the bus are lower? */
  function Rank(address: seq<nat>, a: nat): nat {
    |Below(Elements(address), a)|
  }

  /** A higher address has a higher rank. */
  lemma RankAscends(address: seq<nat>, a: nat, b: nat)
    requires a in Elements(address) && a < b
    ensures Rank(address, a) < Rank(address, b)
  {
    Subset(Below(Elements(address), a) + {a}, Below(Elements(address), b));
  }

  lemma Subset(a: set<nat>, b: set<nat>)
    requires a <= b
    ensures |a| <= |b|
  {
    assert b == a + (b - a);
  }

  /** Once all lower addresses, and only those, have been found, their number is
      the rank. */
  lemma RankFound(address: seq<nat>, found: set<nat>, a: nat)
    requires found <= Elements(address)
    requires forall x | x in Elements(address) :: x in found <==> x < a
    ensures Rank(address, a) == |found|
  {
    assert Below(Elements(address), a) == found;
  }

  /** The found addresses come before all others. */
  lemma FoundFirst(address: seq<nat>, found: set<nat>, a: nat)
    requires found <= Elements(address) && a in Elements(address)
    requires forall x, y | x in found && y in Elements(address) && y !in found :: x < y
    ensures if a in found then Rank(address, a) < |found| else |found| <= Rank(address, a)
  {
    var below := Below(Elements(address), a);
    if a in found {
      Subset(below + {a}, found);
    } else {
      Subset(found, below);
    }
  }

  /** Every lamp has been withdrawn and has a short address of its own, in
      ascending order of the long addresses. */
  predicate Enumerated(address: seq<nat>, withdrawn: seq<bool>, short: seq<Option<nat>>)
    requires |withdrawn| == |address| == |short|
  {
    && (forall i | 0 <= i < |address| :: withdrawn[i] && short[i].Some?)
    && (forall i, j | 0 <= i < |address| && 0 <= j < |address| && address[i] < address[j] :: short[i].value < short[j].value)
    && (forall i, j | 0 <= i < j < |address| :: short[i] != short[j])
  }

  /** The lamps that can all be told apart and reached. */
  predicate Enumerable(address: seq<nat>) {
    && |address| <= LAMPS
    && (forall i | 0 <= i < |address| :: 0 < address[i] < TOP)
    && (forall i, j | 0 <= i < j < |address| :: address[i] != address[j])
  }

  /** What the search does to the lamps if none has address 0: the 65 lowest
      addresses are withdrawn, and the first 64 get their rank. */
  predicate Ranked(address: seq<nat>, withdrawn: seq<bool>, was: seq<Option<nat>>, short: seq<Option<nat>>)
    requires |withdrawn| == |address| == |was| == |short|
  {
    forall i | 0 <= i < |address| ::
      && (withdrawn[i] <==> address[i] < TOP && Rank(address, address[i]) <= LAMPS)
      && short[i] == if address[i] < TOP && Rank(address, address[i]) < LAMPS then Some(Rank(address, address[i])) else was[i]
  }

  lemma RankBound(address: seq<nat>, a: nat)
    requires a in Elements(address)
    ensures Rank(address, a) < |address|
  {
    Subset(Below(Elements(address), a) + {a}, Elements(address));
    FewElements(address);
  }

  lemma {:induction false} FewElements(address: seq<nat>)
    ensures |Elements(address)| <= |address|
  {
    if address != [] {
      var n := |address| - 1;
      FewElements(address[..n]);
      assert Elements(address) == Elements(address[..n]) + {address[n]};
    }
  }

  /** A lamp more than there are short addresses gets none of its own. */
  lemma {:induction false} Pigeonhole(short: seq<Option<nat>>, n: nat)
    requires forall i | 0 <= i < |short| :: short[i].Some? && short[i].value < n
    requires forall i, j | 0 <= i < j < |short| :: short[i] != short[j]
    ensures |short| <= n
  {
    if short != [] {
      assert short[0].value < n;
      if k :| 0 <= k < |short| && short[k].value == n - 1 {
        var rest := short[..k] + short[k + 1..];
        assert forall i | 0 <= i < |rest| :: rest[i] == short[if i < k then i else i + 1];
        Pigeonhole(rest, n - 1);
      } else {
        Pigeonhole(short, n - 1);
      }
    }
  }

  /** Ranking enumerates exactly the enumerable lamps. */
  lemma RankedEnumerates(address: seq<nat>, withdrawn: seq<bool>, was: seq<Option<nat>>, short: seq<Option<nat>>)
    requires |withdrawn| == |address| == |was| == |short| && Ranked(address, withdrawn, was, short)
    requires forall i | 0 <= i < |address| :: 0 < address[i] <= TOP && (short[i].Some? ==> short[i].value < LAMPS)
    ensures Enumerated(address, withdrawn, short) <==> Enumerable(address)
  {
    hide Rank, Elements;
    if Enumerated(address, withdrawn, short) {
      Pigeonhole(short, LAMPS);
    }
    forall i | 0 <= i < |address|
      ensures Rank(address, address[i]) < |address|
    {
      Member(address, i);
      RankBound(address, address[i]);
    }
    if Enumerable(address) {
      forall i, j | 0 <= i < |address| && 0 <= j < |address| && address[i] < address[j]
        ensures Rank(address, address[i]) < Rank(address, address[j])
      {
        Member(address, i);
        RankAscends(address, address[i], address[j]);
      }
    }
  }

  lemma Member(address: seq<nat>, i: nat)
    requires i < |address|
    ensures address[i] in Elements(address)
  {
  }

  /** The first `n` lamps have been found, withdrawn and numbered by rank, and
      those still to be found are above `low`. */
  predicate Found(address: seq<nat>, withdrawn: seq<bool>, was: seq<Option<nat>>, short: seq<Option<nat>>,
                  found: set<nat>, n: nat, low: nat)
  {
    && |withdrawn| == |address| == |was| == |short|
    && found <= Elements(address) && |found| == n && TOP !in found
    && (forall x, y | x in found && y in Elements(address) && y !in found :: x < y)
    && (forall i | 0 <= i < |address| :: withdrawn[i] <==> address[i] in found)
    && (forall i | 0 <= i < |address| && !withdrawn[i] :: low < address[i] && (0 < low < TOP - 1 ==> address[i] != low + 1))
    && (forall i | 0 <= i < |address| ::
          short[i] == if address[i] in found && Rank(address, address[i]) < LAMPS then Some(Rank(address, address[i])) else was[i])
  }

  lemma FoundNothing(address: seq<nat>, withdrawn: seq<bool>, was: seq<Option<nat>>)
    requires |withdrawn| == |address| == |was| && forall i | 0 <= i < |address| :: address[i] > 0 && !withdrawn[i]
    ensures Found(address, withdrawn, was, was, {}, 0, 0)
  {
  }

  lemma FoundAbove(address: seq<nat>, withdrawn: seq<bool>, was: seq<Option<nat>>, short: seq<Option<nat>>,
                   found: set<nat>, n: nat, low: nat)
    requires Found(address, withdrawn, was, short, found, n, low)
    ensures |withdrawn| == |address| && forall i | 0 <= i < |address| && !withdrawn[i] :: low < address[i]
  {
  }

  /** The end of a search that finds nothing. */
  lemma FoundNoMore(address: seq<nat>, withdrawn: seq<bool>, was: seq<Option<nat>>, short: seq<Option<nat>>,
                    found: set<nat>, n: nat, low: nat)
    requires Found(address, withdrawn, was, short, found, n, low)
    requires forall i | 0 <= i < |address| && !withdrawn[i] :: TOP - 1 < address[i]
    ensures Found(address, withdrawn, was, short, found, n, TOP - 1)
  {
    hide Rank, Elements;
  }

  /** The lowest of the others is found, and gets the next number. */
  lemma FoundMore(address: seq<nat>, withdrawn: seq<bool>, was: seq<Option<nat>>, short: seq<Option<nat>>,
                  found: set<nat>, n: nat, low: nat, m: nat, k: nat, withdrawn': seq<bool>, short': seq<Option<nat>>)
    requires Found(address, withdrawn, was, short, found, n, low)
    requires k < |address| && !withdrawn[k] && address[k] == m < TOP
    requires forall i | 0 <= i < |address| && !withdrawn[i] :: m <= address[i]
    requires |withdrawn'| == |short'| == |address|
    requires forall i | 0 <= i < |address| :: withdrawn'[i] == (withdrawn[i] || address[i] == m)
    requires forall i | 0 <= i < |address| :: short'[i] == if address[i] == m && n < LAMPS then Some(n) else short[i]
    ensures m > 0 ==> Found(address, withdrawn', was, short', found + {m}, n + 1, m - 1)
  {
    hide Rank;
    forall x | x in Elements(address)
      ensures x in found <==> x < m
    {
      var i :| 0 <= i < |address| && address[i] == x;
      assert withdrawn[i] <==> x in found;
      assert m in Elements(address) && m !in found;
    }
    RankFound(address, found, m);
    forall x, y | x in found + {m} && y in Elements(address) && y !in found + {m}
      ensures x < y
    {
      assert !(y < m) && y != m;
    }
  }

  /** When the search ends, everything it can find has been found. */
  lemma FoundAll(address: seq<nat>, withdrawn: seq<bool>, was: seq<Option<nat>>, short: seq<Option<nat>>,
                 found: set<nat>, n: nat, low: nat)
    requires Found(address, withdrawn, was, short, found, n, low) && n <= LAMPS + 1
    requires forall i | 0 <= i < |address| :: address[i] <= TOP
    requires n == LAMPS + 1 || TOP - 2 <= low < TOP
    ensures Ranked(address, withdrawn, was, short)
  {
    hide Rank, Elements;
    forall i | 0 <= i < |address|
      ensures withdrawn[i] <==> address[i] < TOP && Rank(address, address[i]) <= LAMPS
      ensures address[i] in found <==> address[i] < TOP && Rank(address, address[i]) <= LAMPS
    {
      Member(address, i);
      FoundFirst(address, found, address[i]);
    }
  }

  /** A lamp with address 0 keeps the others from being found. */
  lemma NeverFound(address: seq<nat>, withdrawn: seq<bool>, short: seq<Option<nat>>)
    requires |withdrawn| == |address| == |short|
    requires exists i | 0 <= i < |address| :: address[i] == 0 && !withdrawn[i]
    ensures !Enumerated(address, withdrawn, short) && !Enumerable(address)
  {
  }

  // ---- the search --------------------------------------------------------------

  /** The three bytes of a 24-bit address. */
  method SplitAdd(input: nat) returns (highbyte: nat, middlebyte: nat, lowbyte: nat)
    ensures highbyte < 256 && middlebyte < 256 && lowbyte < 256
    ensures input <= TOP ==> highbyte * 0x1_0000 + middlebyte * 0x100 + lowbyte == input
    ensures input <= TOP ==> highbyte == input / 0x1_0000 && middlebyte == input / 0x100 % 0x100 && lowbyte == input % 0x100
  {
    highbyte := input / 0x1_0000 % 256;
    middlebyte := input / 0x100 % 256;
    lowbyte := input % 256;
    ThreeBytes(input, input / 0x100, input / 0x1_0000);
  }

  lemma ThreeBytes(x: nat, m: nat, h: nat)
    requires m == x / 0x100 && h == x / 0x1_0000
    ensures x == h * 0x1_0000 + m % 0x100 * 0x100 + x % 0x100 && (x <= TOP ==> h % 256 == h)
  {
    assert x == m * 0x100 + x % 0x100;
    assert m == m / 0x100 * 0x100 + m % 0x100;
    assert m / 0x100 == h;
  }

  /** Setting the three bytes one by one sets the address, whatever it was. */
  lemma Combined(was: nat, h: nat, m: nat, l: nat)
    requires h < 256 && m < 256 && l < 256
    ensures var x := h * 0x1_0000 + was % 0x1_0000;
            var y := x / 0x1_0000 * 0x1_0000 + m * 0x100 + x % 0x100;
            y / 0x100 * 0x100 + l == h * 0x1_0000 + m * 0x100 + l
  {
    var x := h * 0x1_0000 + was % 0x1_0000;
    assert x / 0x1_0000 == h;
    var y := h * 0x1_0000 + m * 0x100 + x % 0x100;
    assert y / 0x100 == h * 0x100 + m;
  }

  /** The master of the bus. */
  class Master {
    const bus: Bus

    constructor (b: Bus)
      ensures bus == b
    {
      bus := b;
    }

    /** Has the bus answered? -1 if nothing came in time. */
    method Receive() returns (r: int)
      ensures r == -1 <==> !bus.answer
    {
      r := if bus.answer then 0xFF else -1;
    }

    /** Makes `a` the search address of all lamps. */
    method Search(a: nat)
      requires bus.Valid() && a <= TOP
      modifies bus
      ensures bus.Valid() && bus.search == a && bus.open == old(bus.open)
      ensures bus.heard == old(bus.heard) + [(0xB1, a / 0x1_0000), (0xB3, a / 0x100 % 0x100), (0xB5, a % 0x100)]
      ensures bus.address == old(bus.address) && bus.withdrawn == old(bus.withdrawn) && bus.short == old(bus.short)
    {
      var highbyte, middlebyte, lowbyte := SplitAdd(a);
      bus.Send(SEARCH_HIGH, highbyte);
      bus.Send(SEARCH_MIDDLE, middlebyte);
      bus.Send(SEARCH_LOW, lowbyte);
      Combined(old(bus.search), highbyte, middlebyte, lowbyte);
    }

    /** Is there a lamp still to be found at or below `a`? */
    method IsBelow(a: nat) returns (found: bool)
      requires bus.Valid() && bus.open && a <= TOP
      modifies bus
      ensures bus.Valid() && bus.open && old(bus.heard) <= bus.heard
      ensures bus.address == old(bus.address) && bus.withdrawn == old(bus.withdrawn) && bus.short == old(bus.short)
      ensures found <==> exists i | 0 <= i < |bus.address| :: !bus.withdrawn[i] && bus.address[i] <= a
    {
      Search(a);
      bus.Send(COMPARE, 0);
      var r := Receive();
      found := r != -1;
    }

    /** Gives the lamps with address `a` the short address, takes them out of the
        search, and lets them light up. */
    method Assign(a: nat, shortAdd: nat)
      requires bus.Valid() && bus.open && a <= TOP && shortAdd <= LAMPS
      modifies bus
      ensures bus.Valid() && bus.open && bus.address == old(bus.address) && old(bus.heard) <= bus.heard
      ensures bus.heard[|old(bus.heard)|..] == [(0xB1, a / 0x1_0000), (0xB3, a / 0x100 % 0x100), (0xB5, a % 0x100), (0xB7, 1 + 2 * shortAdd),
                                                (0xAB, 0), (1 + 2 * shortAdd, 0x05), (1 + 2 * shortAdd, 0x00)]
      ensures forall i | 0 <= i < |bus.address| :: bus.withdrawn[i] == (old(bus.withdrawn[i]) || bus.address[i] == a)
      ensures forall i | 0 <= i < |bus.address| ::
        bus.short[i] == if bus.address[i] == a && shortAdd < LAMPS then Some(shortAdd) else old(bus.short[i])
    {
      Search(a);
      bus.Send(PROGRAM_SHORT, 1 + 2 * shortAdd);
      bus.Send(WITHDRAW, 0);
      bus.Send(1 + 2 * shortAdd, ON);
      bus.Send(1 + 2 * shortAdd, OFF);
    }

    method Prepare()
      requires bus.Valid()
      modifies bus
      ensures bus.Valid() && bus.open && bus.address == bus.drawn && bus.short == old(bus.short)
      ensures bus.heard == old(bus.heard) + [(0xFF, 0x20), (0xFF, 0x20), (0xFF, 0x00), (0xA5, 0), (0xA5, 0), (0xA7, 0), (0xA7, 0)]
      ensures forall i | 0 <= i < |bus.drawn| :: !bus.withdrawn[i]
    {
      bus.Send(BROADCAST, RESET);
      bus.Send(BROADCAST, RESET);
      bus.Send(BROADCAST, OFF);
      bus.Send(INITIALISE, 0);
      bus.Send(INITIALISE, 0);
      bus.Send(RANDOMISE, 0);
      bus.Send(RANDOMISE, 0);
    }
  
    /** Halves the range above `low` until one address is left, the lowest that
        is still to be found, if there is any below the highest. */
    method Halve(low: nat, ghost above: bool) returns (lowLongadd: nat, highLongadd: nat, longadd: nat)
      requires bus.Valid() && bus.open && low < TOP
      requires above ==> forall i | 0 <= i < |bus.address| && !bus.withdrawn[i] :: low < bus.address[i]
      modifies bus
      ensures bus.Valid() && bus.open && old(bus.heard) <= bus.heard
      ensures bus.address == old(bus.address) && bus.withdrawn == old(bus.withdrawn) && bus.short == old(bus.short)
      ensures low <= lowLongadd == longadd && highLongadd == longadd + 1 <= TOP
      ensures above ==> forall i | 0 <= i < |bus.address| && !bus.withdrawn[i] :: longadd + 1 <= bus.address[i]
      ensures highLongadd == TOP || exists i | 0 <= i < |bus.address| :: !bus.withdrawn[i] && bus.address[i] <= highLongadd
    {
      lowLongadd, highLongadd := low, TOP;
      longadd := (lowLongadd + highLongadd) / 2;
      while highLongadd - lowLongadd > 1
        invariant bus.Valid() && bus.open && low <= lowLongadd < highLongadd <= TOP && old(bus.heard) <= bus.heard
        invariant longadd == (lowLongadd + highLongadd) / 2
        invariant bus.address == old(bus.address) && bus.withdrawn == old(bus.withdrawn) && bus.short == old(bus.short)
        invariant above ==> forall i | 0 <= i < |bus.address| && !bus.withdrawn[i] :: lowLongadd < bus.address[i]
        invariant highLongadd == TOP || exists i | 0 <= i < |bus.address| :: !bus.withdrawn[i] && bus.address[i] <= highLongadd
      {
        var below := IsBelow(longadd);
        if !below {
          lowLongadd := longadd;
        } else {
          highLongadd := longadd;
        }
        longadd := (lowLongadd + highLongadd) / 2;
      }
    }

    /** Finds the lamps one after another and numbers them. Before that the lamps
        are reset, and afterwards they no longer listen for addresses and are off. */
    method Init()
      requires bus.Valid() && forall i | 0 <= i < |bus.drawn| :: bus.drawn[i] <= TOP
      modifies bus
      ensures bus.Valid() && bus.address == bus.drawn && !bus.open
      ensures old(bus.heard) + [(0xFF, 0x20), (0xFF, 0x20), (0xFF, 0x00), (0xA5, 0), (0xA5, 0), (0xA7, 0), (0xA7, 0)] <= bus.heard
      ensures bus.heard[|bus.heard| - 2..] == [(0xA1, 0), (0xFF, 0x00)]
      ensures (forall i | 0 <= i < |bus.drawn| :: bus.drawn[i] > 0) ==> Ranked(bus.address, bus.withdrawn, old(bus.short), bus.short)
      ensures Enumerated(bus.address, bus.withdrawn, bus.short) <==> Enumerable(bus.drawn)
    {
      hide Rank, Elements, Enumerated, Enumerable, Found, Ranked;
      ghost var found: set<nat>, positive := {}, forall i | 0 <= i < |bus.drawn| :: bus.drawn[i] > 0;
      ghost var was := bus.short;
      Prepare();
      ghost var prepared := bus.heard;
      if positive {
        FoundNothing(bus.drawn, bus.withdrawn, was);
      }
      var lowLongadd: nat, shortAdd: nat := 0, 0;
      var longadd: nat := (0 + TOP) / 2;
      while longadd <= TOP - 2 && shortAdd <= LAMPS
        invariant bus.Valid() && bus.open && bus.address == bus.drawn && shortAdd <= LAMPS + 1 && prepared <= bus.heard
        invariant lowLongadd < TOP && longadd == (lowLongadd + TOP) / 2
        invariant positive ==> Found(bus.drawn, bus.withdrawn, was, bus.short, found, shortAdd, lowLongadd)
        invariant forall i | 0 <= i < |bus.drawn| && bus.drawn[i] == 0 :: !bus.withdrawn[i]
        decreases LAMPS + 1 - shortAdd, longadd <= TOP - 2
      {
        ghost var w, s, low := bus.withdrawn, bus.short, lowLongadd;
        if positive {
          FoundAbove(bus.drawn, w, was, s, found, shortAdd, low);
        }
        var highLongadd;
        lowLongadd, highLongadd, longadd := Halve(lowLongadd, positive);
        if highLongadd != TOP {
          ghost var k :| 0 <= k < |bus.drawn| && !bus.withdrawn[k] && bus.drawn[k] <= highLongadd;
          Assign(longadd + 1, shortAdd);
          if positive {
            FoundMore(bus.drawn, w, was, s, found, shortAdd, low, longadd + 1, k, bus.withdrawn, bus.short);
            found := found + {longadd + 1};
          }
          shortAdd := shortAdd + 1;
          longadd := (lowLongadd + TOP) / 2;
        } else if positive {
          FoundNoMore(bus.drawn, w, was, s, found, shortAdd, low);
        }
      }
      if positive {
        FoundAll(bus.drawn, bus.withdrawn, was, bus.short, found, shortAdd, lowLongadd);
        RankedEnumerates(bus.drawn, bus.withdrawn, was, bus.short);
      } else {
        NeverFound(bus.drawn, bus.withdrawn, bus.short);
      }
      Finish();
    }

    method Finish()
      requires bus.Valid()
      modifies bus
      ensures bus.Valid() && bus.address == old(bus.address) && bus.withdrawn == old(bus.withdrawn) && bus.short == old(bus.short)
      ensures !bus.open && bus.heard == old(bus.heard) + [(0xA1, 0), (0xFF, 0x00)]
    {
      bus.Send(TERMINATE, 0);
      bus.Send(BROADCAST, OFF);
    }
  }
}

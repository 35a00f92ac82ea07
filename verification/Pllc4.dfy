/** The PLL shared by the four SDMMC controllers, bdk/soc/clock.c. */
module Pllc4 {
  const CONTROLLERS := 4

  /** A mask word is the set of its bits that are one. Bit 31 says that the PLL is on. */
  const ENABLED := 31

  const PLLP_OUT0 := 0
  const PLLC4_OUT2 := 3
  const PLLC4_OUT0 := 7
  const PLLC4_OUT2_LJ := 1

  // ----- rates

  /** The source that a rate in kHz is derived from. */
  function SourceOf(ddr200: bool, id: nat, val: nat): nat {
    if val == 100000 then PLLC4_OUT2
    else if val == 200000 then if id == 0 || id == 2 then PLLC4_OUT2 else PLLC4_OUT2_LJ
    else if val == 400000 && ddr200 then PLLC4_OUT0
    else PLLP_OUT0
  }

  predicate FromPllc4(ddr200: bool, id: nat, val: nat) {
    SourceOf(ddr200, id, val) != PLLP_OUT0
  }

  predicate Supported(ddr200: bool, val: nat) {
    val in {25000, 26000, 50000, 52000, 82000, 100000, 164000, 200000} || (val == 400000 && ddr200)
  }

  function RealClock(ddr200: bool, val: nat, clock: nat): nat {
    if val == 25000 then 24728 else if val == 26000 then 25500 else if val == 50000 then 48000
    else if val == 52000 then 51000 else if val == 82000 then 81600 else if val == 100000 then 99840
    else if val == 164000 then 163200 else if val == 200000 then 199680
    else if val == 400000 && ddr200 then 399360 else clock
  }

  /** The rates that are known are those that yield a clock. */
  lemma SupportedYieldsClock(ddr200: bool, val: nat)
    ensures Supported(ddr200, val) <==> RealClock(ddr200, val, 0) > 0
  {
  }

  /** The divisor field: twice the divisor less two. */
  function DivisorOf(ddr200: bool, val: nat): nat {
    if val == 25000 then 31 else if val == 26000 then 30 else if val == 50000 then 15
    else if val == 52000 then 14 else if val == 82000 then 8 else if val == 100000 then 2
    else if val == 164000 then 3 else if val == 400000 && ddr200 then 3 else 0
  }

  /** In kHz: PLLP runs at 408 MHz, the outputs of PLLC4 at 199.68 MHz and 998.4 MHz. */
  function SourceRate(source: nat): nat {
    if source == PLLP_OUT0 then 408000 else if source == PLLC4_OUT0 then 998400 else 199680
  }

  /** The rates that need the PLL, and the numbers that select the sources. */
  lemma Sources(ddr200: bool, id: nat, val: nat)
    requires id < CONTROLLERS && Supported(ddr200, val)
    ensures SourceOf(ddr200, id, val) ==
      if val == 100000 then 3
      else if val == 200000 then if id % 2 == 0 then 3 else 1
      else if val == 400000 then 7 else 0
    ensures FromPllc4(ddr200, id, val) <==> val in {100000, 200000, 400000}
  {
  }

  /** The clock that is reported is that of the source divided, rounded up to whole kHz, and
      never above what was asked for. */
  lemma RealClockIs(ddr200: bool, id: nat, val: nat, clock: nat)
    requires id < CONTROLLERS && Supported(ddr200, val)
    ensures var d, r := DivisorOf(ddr200, val) + 2, RealClock(ddr200, val, clock);
      0 <= r * d - 2 * SourceRate(SourceOf(ddr200, id, val)) < d && 0 < r <= val
  {
  }

  // ----- what each controller asks for, on its own

  /** One controller: its rate, whether it claims the PLL, whether its clock is on. */
  datatype User = User(rate: nat, holds: bool, on: bool)

  datatype Op = Config(id: nat, val: nat) | Enable(id: nat, val: nat) | Disable(id: nat)

  predicate ValidOp(ddr200: bool, op: Op) {
    op.id < CONTROLLERS && (op.Enable? ==> Supported(ddr200, op.val))
  }

  /** A controller keeps its claim until it is disabled, even at a rate that no longer needs
      the PLL; asking for the rate it already has changes nothing. */
  function StepUser(ddr200: bool, id: nat, u: User, op: Op): User {
    if op.id != id then u
    else match op
      case Config(_, val) => if u.rate == val then u else User(val, u.holds || FromPllc4(ddr200, id, val), u.on)
      case Enable(_, val) => User(val, u.holds || FromPllc4(ddr200, id, val), true)
      case Disable(_) => u.(holds := false, on := false)
  }

  /** The controller after a run, as if there were no others. */
  function Track(ddr200: bool, id: nat, ops: seq<Op>): User {
    if ops == [] then User(0, false, false)
    else StepUser(ddr200, id, Track(ddr200, id, ops[..|ops| - 1]), ops[|ops| - 1])
  }

  function TrackAll(ddr200: bool, ops: seq<Op>): (r: seq<User>)
    ensures |r| == CONTROLLERS
  {
    [Track(ddr200, 0, ops), Track(ddr200, 1, ops), Track(ddr200, 2, ops), Track(ddr200, 3, ops)]
  }

  /** In every run, a clock that is on at a rate from the PLL goes with a claim on it. */
  lemma {:induction false} OnMeansHolds(ddr200: bool, id: nat, ops: seq<Op>)
    ensures var u := Track(ddr200, id, ops); u.on && FromPllc4(ddr200, id, u.rate) ==> u.holds
  {
    if ops != [] { OnMeansHolds(ddr200, id, ops[..|ops| - 1]); }
  }

  /** The calls that take the claim, and those that give it up. */
  predicate Takes(ddr200: bool, id: nat, op: Op) {
    !op.Disable? && op.id == id && FromPllc4(ddr200, id, op.val)
  }

  /** From a Disable to the next rate from the PLL a controller has no claim. */
  lemma {:induction false} DisabledNoClaim(ddr200: bool, id: nat, ops: seq<Op>, more: seq<Op>)
    requires forall i | 0 <= i < |more| :: !Takes(ddr200, id, more[i])
    ensures !Track(ddr200, id, ops + [Disable(id)] + more).holds
    decreases |more|
  {
    var all := ops + [Disable(id)] + more;
    if more == [] {
      assert all[..|all| - 1] == ops;
    } else {
      assert all[..|all| - 1] == ops + [Disable(id)] + more[..|more| - 1];
      DisabledNoClaim(ddr200, id, ops, more[..|more| - 1]);
      assert !Takes(ddr200, id, more[|more| - 1]);
    }
  }

  /** From an Enable at a rate from the PLL to the next Disable it has one, and its clock is
      on. */
  lemma {:induction false} EnabledClaim(ddr200: bool, id: nat, val: nat, ops: seq<Op>, more: seq<Op>)
    requires FromPllc4(ddr200, id, val) && Disable(id) !in more
    ensures var u := Track(ddr200, id, ops + [Enable(id, val)] + more); u.holds && u.on
    decreases |more|
  {
    var all := ops + [Enable(id, val)] + more;
    if more == [] {
      assert all[..|all| - 1] == ops;
    } else {
      assert all[..|all| - 1] == ops + [Enable(id, val)] + more[..|more| - 1];
      EnabledClaim(ddr200, id, val, ops, more[..|more| - 1]);
      assert more[|more| - 1] != Disable(id);
    }
  }

  // ----- the code

  /** The registers and globals that the functions read and write. */
  datatype Regs = Regs(
    mask: set<nat>, pllOn: bool, clock: seq<nat>, realClock: seq<nat>,
    on: seq<bool>, source: seq<nat>, divisor: seq<nat>)

  predicate Shaped(r: Regs) {
    |r.clock| == |r.realClock| == |r.on| == |r.source| == |r.divisor| == CONTROLLERS
  }

  /** No clock that is on depends on the PLL. */
  predicate Unneeded(r: Regs) {
    Shaped(r) && forall i | 0 <= i < CONTROLLERS :: !(r.on[i] && r.source[i] != PLLP_OUT0)
  }

  predicate SomeHolds(users: seq<User>) {
    exists i | 0 <= i < |users| :: users[i].holds
  }

  /** The registers show what the controllers ask for, and the PLL runs exactly while one of
      them claims it. */
  predicate Shows(ddr200: bool, r: Regs, users: seq<User>) {
    Shaped(r) && |users| == CONTROLLERS && (forall b | b in r.mask :: b < CONTROLLERS || b == ENABLED) &&
    (forall i | 0 <= i < CONTROLLERS :: ShowsUser(ddr200, r, i, users[i])) &&
    (ENABLED in r.mask <==> r.pllOn) && (r.pllOn <==> SomeHolds(users))
  }

  predicate ShowsUser(ddr200: bool, r: Regs, i: nat, u: User)
    requires Shaped(r) && i < CONTROLLERS
  {
    r.clock[i] == u.rate && r.on[i] == u.on && (i in r.mask <==> u.holds) &&
    (u.on ==> r.source[i] == SourceOf(ddr200, i, u.rate)) && (u.on && r.source[i] != PLLP_OUT0 ==> u.holds)
  }

  /** What `_clock_sdmmc_config_clock_host` leaves behind. */
  function Configured(ddr200: bool, r: Regs, id: nat, val: nat, clock: nat): Regs
    requires Shaped(r) && id < CONTROLLERS
  {
    var use := FromPllc4(ddr200, id, val);
    Regs(if use then r.mask + {id, ENABLED} else r.mask, use || r.pllOn, r.clock[id := val],
         r.realClock[id := RealClock(ddr200, val, clock)], r.on, r.source[id := SourceOf(ddr200, id, val)],
         r.divisor[id := DivisorOf(ddr200, val)])
  }

  function Released(r: Regs, id: nat): Regs
    requires id < CONTROLLERS
  {
    var m := r.mask - {id};
    if m - {ENABLED} != {} || ENABLED !in m then r.(mask := m) else r.(mask := {}, pllOn := false)
  }

  /** Controller `id` has been set to the rate `val`; the others are as they were. Bits `id`
      and 31 are set and the PLL is on if the rate needs it. */
  predicate SetTo(ddr200: bool, r: Regs, r': Regs, id: nat, val: nat)
  {
    var claim := val == 100000 || val == 200000 || (val == 400000 && ddr200);
    Shaped(r) && Shaped(r') && id < CONTROLLERS && r'.clock == r.clock[id := val] &&
    (forall i | 0 <= i < CONTROLLERS && i != id ::
       r'.realClock[i] == r.realClock[i] && r'.source[i] == r.source[i] && r'.divisor[i] == r.divisor[i]) &&
    r'.source[id] == SourceOf(ddr200, id, val) && r'.divisor[id] == DivisorOf(ddr200, val) &&
    (Supported(ddr200, val) ==> r'.realClock[id] == RealClock(ddr200, val, 0)) &&
    r'.mask == (if claim then r.mask + {id, 31} else r.mask) && r'.pllOn == (claim || r.pllOn)
  }

  lemma ConfiguredIsSet(ddr200: bool, r: Regs, off: Regs, id: nat, val: nat, clock: nat, on: seq<bool>)
    requires Shaped(r) && id < CONTROLLERS && off == r.(on := off.on) && |off.on| == CONTROLLERS == |on|
    ensures SetTo(ddr200, r, Configured(ddr200, off, id, val, clock).(on := on), id, val)
  {
    hide DivisorOf;
  }

  // ----- what the steps keep

  lemma TurnedOff(ddr200: bool, r: Regs, users: seq<User>, id: nat)
    requires Shows(ddr200, r, users) && id < CONTROLLERS
    ensures Shows(ddr200, r.(on := r.on[id := false]), users[id := users[id].(on := false)])
  {
    var users' := users[id := users[id].(on := false)];
    assert forall i | 0 <= i < CONTROLLERS :: users'[i].holds == users[i].holds;
  }

  lemma TurnedOn(ddr200: bool, r: Regs, users: seq<User>, id: nat)
    requires Shows(ddr200, r, users) && id < CONTROLLERS
    requires r.source[id] == SourceOf(ddr200, id, users[id].rate) && (r.source[id] != PLLP_OUT0 ==> users[id].holds)
    ensures Shows(ddr200, r.(on := r.on[id := true]), users[id := users[id].(on := true)])
  {
    var users' := users[id := users[id].(on := true)];
    assert forall i | 0 <= i < CONTROLLERS :: users'[i].holds == users[i].holds;
  }

  lemma NobodyNeeds(ddr200: bool, r: Regs, users: seq<User>)
    requires Shows(ddr200, r, users)
    ensures ENABLED !in r.mask ==> Unneeded(r)
  {
    if ENABLED !in r.mask {
      forall i | 0 <= i < CONTROLLERS ensures !(r.on[i] && r.source[i] != PLLP_OUT0) {
        assert ShowsUser(ddr200, r, i, users[i]) && !users[i].holds;
      }
    }
  }

  lemma ConfiguredShows(ddr200: bool, r: Regs, users: seq<User>, id: nat, val: nat, clock: nat)
    requires Shows(ddr200, r, users) && id < CONTROLLERS && !users[id].on
    ensures Shows(ddr200, Configured(ddr200, r, id, val, clock),
                  users[id := User(val, users[id].holds || FromPllc4(ddr200, id, val), false)])
  {
    hide SourceOf, RealClock;
    var use := FromPllc4(ddr200, id, val);
    var r', users' := Configured(ddr200, r, id, val, clock), users[id := User(val, users[id].holds || use, false)];
    forall i | 0 <= i < CONTROLLERS ensures ShowsUser(ddr200, r', i, users'[i]) {
      assert ShowsUser(ddr200, r, i, users[i]);
    }
    Claims(users, id, users'[id]);
  }

  /** How a claim of one changes whether anyone claims. */
  lemma Claims(users: seq<User>, id: nat, v: User)
    requires id < |users| && (users[id].holds ==> v.holds)
    ensures SomeHolds(users[id := v]) <==> SomeHolds(users) || v.holds
  {
    var users' := users[id := v];
    if SomeHolds(users) {
      var i :| 0 <= i < |users| && users[i].holds;
      assert users'[i].holds;
    }
    if v.holds { assert users'[id].holds; }
    if SomeHolds(users') {
      var i :| 0 <= i < |users| && users'[i].holds;
      assert i == id || users[i].holds;
    }
  }

  /** When the last claim goes, no running clock needs the PLL. */
  lemma LastClaim(ddr200: bool, r: Regs, users: seq<User>, id: nat)
    requires Shows(ddr200, r, users) && id < CONTROLLERS && !users[id].on
    ensures r.mask - {id, ENABLED} == {} ==> Unneeded(r)
  {
    hide SourceOf;
    if r.mask - {id, ENABLED} == {} {
      forall i | 0 <= i < CONTROLLERS ensures !(r.on[i] && r.source[i] != PLLP_OUT0) {
        assert ShowsUser(ddr200, r, i, users[i]);
        assert i in r.mask ==> i == id || i in r.mask - {id, ENABLED};
      }
    }
  }

  /** Off, to another rate, and on again if it was to be on. */
  lemma Reconfigured(ddr200: bool, r: Regs, users: seq<User>, id: nat, val: nat, clock: nat, on: bool)
    requires Shows(ddr200, r, users) && id < CONTROLLERS
    ensures var off := r.(on := r.on[id := false]);
      (ENABLED in r.mask ==> r.pllOn) && (ENABLED !in r.mask ==> Unneeded(off)) &&
      Shows(ddr200, Configured(ddr200, off, id, val, clock).(on := r.on[id := on]),
            users[id := User(val, users[id].holds || FromPllc4(ddr200, id, val), on)])
  {
    var off, users1 := r.(on := r.on[id := false]), users[id := users[id].(on := false)];
    TurnedOff(ddr200, r, users, id);
    NobodyNeeds(ddr200, off, users1);
    ConfiguredShows(ddr200, off, users1, id, val, clock);
    var r2 := Configured(ddr200, off, id, val, clock);
    var v := User(val, users[id].holds || FromPllc4(ddr200, id, val), false);
    assert users1[id := v] == users[id := v];
    hide Shows;
    if on {
      TurnedOn(ddr200, r2, users[id := v], id);
      assert r2.on[id := true] == r.on[id := true];
      assert users[id := v][id := v.(on := true)] == users[id := v.(on := true)];
    }
  }

  lemma ReleasedShows(ddr200: bool, r: Regs, users: seq<User>, id: nat)
    requires Shows(ddr200, r, users) && id < CONTROLLERS && !users[id].on
    ensures Shows(ddr200, Released(r, id), users[id := users[id].(holds := false)])
  {
    hide SourceOf;
    var r', users' := Released(r, id), users[id := users[id].(holds := false)];
    forall i | 0 <= i < CONTROLLERS ensures ShowsUser(ddr200, r', i, users'[i]) {
      assert ShowsUser(ddr200, r, i, users[i]);
    }
    assert SomeHolds(users') <==> users'[0].holds || users'[1].holds || users'[2].holds || users'[3].holds;
  }

  lemma KeepsOn(ddr200: bool, r: Regs, id: nat, val: nat, clock: nat)
    requires Shaped(r) && id < CONTROLLERS
    ensures Configured(ddr200, r, id, val, clock).on == r.on
  {
  }

  class Clocks {
    const ddr200: bool
    var mask: set<nat>
    var pllOn: bool
    var clock: seq<nat>
    var realClock: seq<nat>
    var on: seq<bool>
    var source: seq<nat>
    var divisor: seq<nat>

    function Now(): Regs
      reads this
    {
      Regs(mask, pllOn, clock, realClock, on, source, divisor)
    }

    /** After a reset every controller is off; the sources are whatever they were. */
    constructor (ddr200: bool, source: seq<nat>, divisor: seq<nat>)
      requires |source| == |divisor| == CONTROLLERS
      ensures this.ddr200 == ddr200 && Shows(ddr200, Now(), TrackAll(ddr200, []))
    {
      this.ddr200 := ddr200;
      mask, pllOn, clock, realClock := {}, false, [0, 0, 0, 0], [0, 0, 0, 0];
      on, this.source, this.divisor := [false, false, false, false], source, divisor;
    }

    /** Both are done only while no running clock needs the PLL. */
    method PllOff()
      requires Unneeded(Now())
      modifies this`pllOn
      ensures !pllOn
    {
      pllOn := false;
    }

    method PllOn()
      requires Unneeded(Now())
      modifies this`pllOn
      ensures pllOn
    {
      pllOn := true;
    }

    /** `_clock_enable_pllc4` */
    method EnablePllc4(id: nat)
      requires id < CONTROLLERS && if ENABLED in mask then pllOn else Unneeded(Now())
      modifies this`mask, this`pllOn
      ensures mask == old(mask) + {id, ENABLED} && pllOn
    {
      mask := mask + {id};
      if ENABLED in mask {
        return;
      }
      PllOff();
      PllOn();
      mask := mask + {ENABLED};
    }

    /** `_clock_disable_pllc4` */
    method DisablePllc4(id: nat)
      requires id < CONTROLLERS && (mask - {id, ENABLED} == {} ==> Unneeded(Now()))
      modifies this`mask, this`pllOn
      ensures Now() == Released(old(Now()), id)
    {
      mask := mask - {id};
      assert mask - {ENABLED} == old(mask) - {id, ENABLED};
      if mask - {ENABLED} != {} || ENABLED !in mask {
        return;
      }
      PllOff();
      mask := {};
    }

    /** `_clock_sdmmc_config_clock_host`; the source is switched only while the clock is off. */
    method ConfigHost(clock0: nat, id: nat, val: nat) returns (ok: bool, newClock: nat)
      requires Shaped(Now()) && (id < CONTROLLERS ==> !on[id])
      requires if ENABLED in mask then pllOn else Unneeded(Now())
      modifies this
      ensures ok == (id < CONTROLLERS)
      ensures !ok ==> Now() == old(Now()) && newClock == clock0
      ensures ok ==> newClock == RealClock(ddr200, val, clock0)
      ensures ok ==> Now() == Configured(ddr200, old(Now()), id, val, clock0)
    {
      newClock, ok := clock0, false;
      var src, div := PLLP_OUT0, 0;
      if id > 3 {
        return;
      }
      match val {
        case 25000 => newClock, div := 24728, 31;
        case 26000 => newClock, div := 25500, 30;
        case 50000 => newClock, div := 48000, 15;
        case 52000 => newClock, div := 51000, 14;
        case 82000 => newClock, div := 81600, 8;
        case 100000 => src, newClock, div := PLLC4_OUT2, 99840, 2;
        case 164000 => newClock, div := 163200, 3;
        case 200000 =>
          src := if id == 0 || id == 2 then PLLC4_OUT2 else PLLC4_OUT2_LJ;
          newClock := 199680;
        case 400000 =>
          if ddr200 {
            src, newClock, div := PLLC4_OUT0, 399360, 3;
          }
        case _ =>
      }
      clock := clock[id := val];
      realClock := realClock[id := newClock];
      if src != PLLP_OUT0 {
        EnablePllc4(id);
      }
      source, divisor := source[id := src], divisor[id := div];
      ok := true;
    }

    /** `clock_sdmmc_config_clock_source` */
    method ConfigClockSource(clock0: nat, id: nat, val: nat, ghost users: seq<User>) returns (newClock: nat)
      requires id < CONTROLLERS && Shows(ddr200, Now(), users)
      modifies this
      ensures Shows(ddr200, Now(), users[id := StepUser(ddr200, id, users[id], Config(id, val))])
      ensures newClock == if old(clock[id]) == val then old(realClock[id]) else RealClock(ddr200, val, clock0)
      ensures old(clock[id]) == val ==> Now() == old(Now())
      ensures old(clock[id]) != val ==> SetTo(ddr200, old(Now()), Now(), id, val) && on == old(on)
    {
      hide Configured, RealClock, FromPllc4;
      if clock[id] == val {
        newClock := realClock[id];
        assert users[id := users[id]] == users;
      } else {
        ghost var r := Now();
        Reconfigured(ddr200, r, users, id, val, clock0, r.on[id]);
        var isEnabled := on[id];
        if isEnabled {
          on := on[id := false];
        }
        assert Now() == r.(on := r.on[id := false]);
        var ok;
        ok, newClock := ConfigHost(clock0, id, val);
        KeepsOn(ddr200, r.(on := r.on[id := false]), id, val, clock0);
        if isEnabled {
          on := on[id := true];
        }
        assert on == r.on[id := isEnabled];
        ConfiguredIsSet(ddr200, r, r.(on := r.on[id := false]), id, val, clock0, on);
      }
    }

    /** `clock_sdmmc_enable`; the rate must be one that is known, because the clock is divided
        by. */
    method SdmmcEnable(id: nat, val: nat, ghost users: seq<User>) returns (microseconds: nat)
      requires id < CONTROLLERS && Supported(ddr200, val) && Shows(ddr200, Now(), users)
      modifies this
      ensures Shows(ddr200, Now(), users[id := StepUser(ddr200, id, users[id], Enable(id, val))])
      ensures SetTo(ddr200, old(Now()), Now(), id, val) && on == old(on)[id := true]
      ensures var clk := RealClock(ddr200, val, 0); (microseconds - 1) * clk < 100000 <= microseconds * clk
    {
      hide Configured, FromPllc4;
      ghost var r := Now();
      Reconfigured(ddr200, r, users, id, val, 0, true);
      if on[id] {
        on := on[id := false];
      }
      assert Now() == r.(on := r.on[id := false]);
      var ok, newClock := ConfigHost(0, id, val);
      KeepsOn(ddr200, r.(on := r.on[id := false]), id, val, 0);
      on := on[id := true];
      assert on == r.on[id := true];
      ConfiguredIsSet(ddr200, r, r.(on := r.on[id := false]), id, val, 0, on);
      RealClockIs(ddr200, id, val, 0);
      microseconds := (100 * 1000 + newClock - 1) / newClock;
      RoundedUp(100000, newClock, microseconds);
    }

    /** `clock_sdmmc_disable` */
    method SdmmcDisable(id: nat, ghost users: seq<User>)
      requires id < CONTROLLERS && Shows(ddr200, Now(), users)
      modifies this
      ensures Shows(ddr200, Now(), users[id := StepUser(ddr200, id, users[id], Disable(id))])
      ensures on == old(on)[id := false] && id !in mask
      ensures if old(mask) <= {id, 31} then mask == {} && !pllOn else mask == old(mask) - {id} && pllOn == old(pllOn)
      ensures clock == old(clock) && realClock == old(realClock) && source == old(source) && divisor == old(divisor)
    {
      ghost var r := Now();
      on := on[id := false];
      TurnedOff(ddr200, r, users, id);
      ghost var r1, users1 := Now(), users[id := users[id].(on := false)];
      LastClaim(ddr200, r1, users1, id);
      DisablePllc4(id);
      ReleasedShows(ddr200, r1, users1, id);
      assert users1[id := users1[id].(holds := false)] == users[id := users[id].(holds := false, on := false)];
    }

    /** Any run: the registers show what the four controllers, each on its own, ask for. */
    method Run(ops: seq<Op>)
      requires Shows(ddr200, Now(), TrackAll(ddr200, [])) && forall i | 0 <= i < |ops| :: ValidOp(ddr200, ops[i])
      modifies this
      ensures Shows(ddr200, Now(), TrackAll(ddr200, ops))
      ensures Safe(ddr200, Now()) && (pllOn <==> SomeHolds(TrackAll(ddr200, ops)))
    {
      hide Shows, Track, StepUser;
      assert ops[..0] == [];
      for n := 0 to |ops|
        invariant Shows(ddr200, Now(), TrackAll(ddr200, ops[..n]))
      {
        ghost var users := TrackAll(ddr200, ops[..n]);
        assert ValidOp(ddr200, ops[n]);
        TrackNext(ddr200, ops, n);
        match ops[n] {
          case Config(id, val) =>
            var newClock := ConfigClockSource(0, id, val, users);
          case Enable(id, val) =>
            var microseconds := SdmmcEnable(id, val, users);
          case Disable(id) =>
            SdmmcDisable(id, users);
        }
      }
      assert ops[..|ops|] == ops;
      ShowsSafe(ddr200, Now(), TrackAll(ddr200, ops));
    }
  }

  lemma RoundedUp(a: nat, b: nat, q: nat)
    requires b > 0 && q == (a + b - 1) / b
    ensures (q - 1) * b < a <= q * b
  {
    assert a + b - 1 == q * b + (a + b - 1) % b;
    assert (q - 1) * b == q * b - b;
  }

  /** A running clock that comes from the PLL has its bit set and the PLL is on; bit 31 shows
      the PLL. */
  predicate Safe(ddr200: bool, r: Regs) {
    Shaped(r) && (ENABLED in r.mask <==> r.pllOn) &&
    forall i | 0 <= i < CONTROLLERS :: r.on[i] && r.source[i] != PLLP_OUT0 ==> i in r.mask && r.pllOn
  }

  lemma ShowsSafe(ddr200: bool, r: Regs, users: seq<User>)
    requires Shows(ddr200, r, users)
    ensures Safe(ddr200, r) && (r.pllOn <==> SomeHolds(users))
  {
    forall i | 0 <= i < CONTROLLERS && r.on[i] && r.source[i] != PLLP_OUT0 ensures i in r.mask && r.pllOn {
      assert ShowsUser(ddr200, r, i, users[i]) && users[i].holds;
    }
  }

  lemma TrackNext(ddr200: bool, ops: seq<Op>, n: nat)
    requires n < |ops| && ops[n].id < CONTROLLERS
    ensures var users, id := TrackAll(ddr200, ops[..n]), ops[n].id;
      TrackAll(ddr200, ops[..n + 1]) == users[id := StepUser(ddr200, id, users[id], ops[n])]
  {
    assert ops[..n + 1][..n] == ops[..n];
  }
}

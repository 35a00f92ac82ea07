/** The part of a device that is offered over USB, as the menu of ums-loader/main.c edits it. */
module SubStorage {
  import opened Bits
  import opened Selector

  const SD := 0
  const EMMC_GPP := 1
  const EMMC_BOOT0 := 2
  const EMMC_BOOT1 := 3

  const BY_PART := 0
  const BY_OFFSET := 1

  const PARTS := 30

  datatype Part = Part(offset: u32, size: u32)

  /** What reading a device's partition table yields. */
  datatype Table = Table(physSize: u32, nParts: nat, parts: seq<Part>)

  predicate ValidTable(t: Table) {
    |t.parts| == PARTS && t.nParts <= PARTS
  }

  /** No partition begins behind the end of the device. Entries that were not read are zero. */
  predicate StartsInside(t: Table) {
    ValidTable(t) && forall i | 0 <= i < PARTS :: t.parts[i].offset <= t.physSize
  }

  /** What a user can do; the loaded table comes from the device, the presses from the user. */
  datatype Event =
    | ToggleDevice(loaded: Table)
    | ToggleMode
    | TogglePart
    | EditOffset(session: seq<seq<bool>>)
    | EditSize(session: seq<seq<bool>>)
    | ToggleRo

  predicate ValidEvent(e: Event) {
    match e
    case ToggleDevice(t) => ValidTable(t)
    case EditOffset(s) => |s| == 4
    case EditSize(s) => |s| == 4
    case _ => true
  }

  predicate LoadsInside(e: Event) {
    e.ToggleDevice? ==> StartsInside(e.loaded)
  }

  class Config {
    const sdError: bool
    const emmcError: bool
    var table: Table
    var offset: u32
    var size: u32
    var ro: bool
    var device: nat
    var mode: nat
    var part: nat
    var modeDisabled: bool
    var partDisabled: bool
    var offsetDisabled: bool
    var sizeDisabled: bool

    /** What the menu keeps whatever was loaded: no mode that it cannot serve, the window of
        the partition selected, and exactly the entries enabled that make sense. */
    ghost predicate Valid()
      reads this
    {
      ValidTable(table) && device <= EMMC_BOOT1 && mode in {BY_PART, BY_OFFSET} && part < PARTS &&
      (mode == BY_PART ==> table.nParts > 0 && offset == table.parts[part].offset) &&
      (modeDisabled <==> table.nParts == 0) && (partDisabled <==> mode != BY_PART) &&
      (offsetDisabled <==> mode != BY_OFFSET) && (sizeDisabled <==> mode != BY_OFFSET) &&
      size <= (table.physSize - offset) % WRAP
    }

    /** The window lies within the device. */
    predicate Inside()
      reads this
    {
      offset + size <= table.physSize
    }

    /** That depends on where it begins; the size is always cut to what is left. */
    lemma InsideExactly()
      requires Valid()
      ensures Inside() <==> offset <= table.physSize
    {
    }

    /** `ums_sub_storage_size_update`; the subtraction wraps in 32 bits. */
    method SizeUpdate()
      modifies this`size, this`sizeDisabled
      ensures sizeDisabled == (mode != BY_OFFSET)
      ensures var room := (table.physSize - offset) % WRAP; size == if old(size) <= room then old(size) else room
    {
      sizeDisabled := mode != BY_OFFSET;
      var room: u32 := (table.physSize - offset) % WRAP;
      size := if size < room then size else room;
    }

    /** `ums_sub_storage_offset_update` */
    method OffsetUpdate()
      modifies this`offsetDisabled
      ensures offsetDisabled == (mode != BY_OFFSET)
    {
      offsetDisabled := mode != BY_OFFSET;
    }

    /** `ums_sub_storage_part_update`: in partition mode the window becomes the partition, cut
        off at the end of the device. */
    method PartUpdate()
      requires ValidTable(table) && part < PARTS
      modifies this`offset, this`size, this`partDisabled, this`offsetDisabled, this`sizeDisabled
      ensures partDisabled == (mode != BY_PART) && offsetDisabled == sizeDisabled == (mode != BY_OFFSET)
      ensures offset == if mode == BY_PART then table.parts[part].offset else old(offset)
      ensures (Inside() <==> offset <= table.physSize) && size <= (table.physSize - offset) % WRAP
      ensures mode == BY_PART && offset + table.parts[part].size <= table.physSize ==> size == table.parts[part].size
      ensures mode != BY_PART && old(size) <= (table.physSize - offset) % WRAP ==> size == old(size)
    {
      if mode != BY_PART {
        partDisabled := true;
      } else {
        partDisabled := false;
        offset := table.parts[part].offset;
        size := table.parts[part].size;
      }
      OffsetUpdate();
      SizeUpdate();
    }

    /** `ums_sub_storage_mode_update` */
    method ModeUpdate()
      requires ValidTable(table) && part < PARTS && mode in {BY_PART, BY_OFFSET} && device <= EMMC_BOOT1
      modifies this`mode, this`offset, this`size
      modifies this`modeDisabled, this`partDisabled, this`offsetDisabled, this`sizeDisabled
      ensures Valid()
      ensures mode == if table.nParts == 0 then BY_OFFSET else old(mode)
      ensures offset == if mode == BY_PART then table.parts[part].offset else old(offset)
      ensures mode != BY_PART && old(size) <= (table.physSize - offset) % WRAP ==> size == old(size)
    {
      if table.nParts == 0 || mode == EMMC_BOOT0 || mode == EMMC_BOOT1 {
        mode := BY_OFFSET;
        modeDisabled := true;
      } else {
        modeDisabled := false;
      }
      PartUpdate();
      OffsetUpdate();
      SizeUpdate();
    }

    /** `load_part_table`: the boot partitions have a fixed size and no table; otherwise the
        device decides. */
    method Load(t: Table)
      requires ValidTable(t)
      modifies this`table
      ensures table == Loaded(device, t)
    {
      table := if device == EMMC_BOOT0 || device == EMMC_BOOT1 then BootTable() else t;
    }

    /** The start of `ums_sub_storage_cb`; nothing is offered when both devices failed. */
    constructor (sdError: bool, emmcError: bool, t: Table)
      requires ValidTable(t) && !(sdError && emmcError)
      ensures Valid() && (mode == BY_PART <==> t.nParts > 0) && part == 0
      ensures mode == BY_OFFSET ==> offset == 0 && size == 0
      ensures this.sdError == sdError && this.emmcError == emmcError && table == t
      ensures device == (if sdError then EMMC_GPP else SD) && ro == sdError
    {
      this.sdError, this.emmcError := sdError, emmcError;
      device, ro := if sdError then EMMC_GPP else SD, sdError;
      mode, part, offset, size := BY_PART, 0, 0, 0;
      table := Table(0, 0, t.parts);
      modeDisabled, partDisabled, offsetDisabled, sizeDisabled := false, false, true, true;
      new;
      Load(t);
      ModeUpdate();
    }

    /** `ums_sub_storage_device_toggle_cb` */
    method DeviceToggle(t: Table)
      requires Valid() && ValidTable(t)
      modifies this
      ensures Valid() && device == NextDevice(old(device), sdError, emmcError)
      ensures device == old(device) ==>
        offset == old(offset) && size == old(size) && table == old(table) && mode == old(mode)
      ensures ro == if device != old(device) then device != SD else old(ro)
      ensures device != old(device) ==> table == Loaded(device, t) && (mode == BY_PART <==> table.nParts > 0)
      ensures device != old(device) && device >= 2 ==> table.physSize == 0x2000 && table.nParts == 0
      ensures device != old(device) && mode == BY_OFFSET ==> offset == 0 && size == table.physSize
      ensures device != old(device) && mode == BY_PART ==> offset == table.parts[part].offset
    {
      var prev := device;
      match device {
        case 0 =>
          if !emmcError {
            device := device + 1;
          }
        case 1 => device := device + 1;
        case 2 => device := device + 1;
        case 3 => device := SD;
        case _ =>
      }
      if prev != device {
        ro := device != SD;
        Load(t);
        mode := BY_PART;
        offset := 0;
        size := table.physSize;
        ModeUpdate();
      }
    }

    /** `ums_sub_storage_mode_toggle_cb` */
    method ModeToggle()
      requires Valid() && !modeDisabled
      modifies this`mode, this`offset, this`size
      modifies this`modeDisabled, this`partDisabled, this`offsetDisabled, this`sizeDisabled
      ensures Valid() && mode != old(mode)
      ensures offset == if mode == BY_PART then table.parts[part].offset else old(offset)
      ensures mode == BY_OFFSET ==> size == old(size)
    {
      if mode == BY_OFFSET {
        if table.nParts > 0 {
          mode := BY_PART;
        }
      } else {
        mode := BY_OFFSET;
      }
      ModeUpdate();
    }

    /** `ums_sub_storage_part_toggle_cb`: there is a partition to go on to, so the remainder is
        defined. */
    method PartToggle()
      requires Valid() && !partDisabled
      modifies this`part, this`offset, this`size, this`partDisabled, this`offsetDisabled, this`sizeDisabled
      ensures Valid() && part == (old(part) + 1) % table.nParts && offset == table.parts[part].offset
    {
      part := (part + 1) % table.nParts;
      PartUpdate();
    }

    /** `ums_sub_storage_offset_cb`. A window outside the device starts the selector above its
        limit, where it can hang. */
    method OffsetEdit(session: seq<seq<bool>>) returns (hung: bool)
      requires Valid() && !offsetDisabled && |session| == 4
      modifies this`offset, this`size, this`offsetDisabled, this`sizeDisabled
      ensures Valid() && (old(Inside()) ==> !hung && Inside())
      ensures hung <==> Selected(old(offset), table.physSize, session, 0).Never?
      ensures hung ==> offset == old(offset) && size == old(size)
      ensures !hung ==> Selected(old(offset), table.physSize, session, 0) == Value(offset)
      ensures var room := (table.physSize - offset) % WRAP;
        !hung ==> size == if old(size) <= room then old(size) else room
    {
      hide Selected;
      var r := Select(offset, table.physSize, session);
      if r.Never? {
        return true;
      }
      hung, offset := false, r.val;
      OffsetUpdate();
      SizeUpdate();
    }

    /** `ums_sub_storage_size_cb`: the size never starts above its limit. */
    method SizeEdit(session: seq<seq<bool>>)
      requires Valid() && !sizeDisabled && |session| == 4
      modifies this`size, this`sizeDisabled
      ensures Valid() && (Inside() <==> old(Inside()))
      ensures Selected(old(size), (table.physSize - offset) % WRAP, session, 0) == Value(size)
    {
      hide Selected;
      var max: u32 := (table.physSize - offset) % WRAP;
      var r := Select(size, max, session);
      size := r.val;
      SizeUpdate();
    }

    /** `ums_sub_storage_ro_cb` */
    method RoToggle()
      modifies this`ro
      ensures ro == !old(ro)
    {
      ro := !ro;
    }

    /** Whatever a user does with the entries that are enabled and whatever is loaded. Without
        a partition that begins behind the end of its device the window stays inside and the
        editor never hangs; it hangs only in the offset editor with the window outside. */
    method Run(events: seq<Event>) returns (hung: bool, done: nat)
      requires Valid() && forall i | 0 <= i < |events| :: ValidEvent(events[i])
      modifies this
      ensures Valid() && (Inside() <==> offset <= table.physSize)
      ensures if hung then done < |events| && Hangs(events[done]) && !Inside() else done == |events|
      ensures old(Inside() && StartsInside(table)) && AllInside(events) ==> Inside() && !hung
    {
      hide Selected;
      hung, done := false, 0;
      while done < |events|
        invariant Valid() && done <= |events| && !hung
        invariant old(Inside() && StartsInside(table)) && AllInside(events) ==> Inside() && StartsInside(table)
      {
        assert ValidEvent(events[done]);
        assert AllInside(events) ==> LoadsInside(events[done]);
        hung := Handle(events[done]);
        if hung {
          break;
        }
        done := done + 1;
      }
      InsideExactly();
    }

    /** The editor hangs in this state with this event. */
    predicate Hangs(e: Event)
      requires ValidEvent(e)
      reads this
    {
      e.EditOffset? && !offsetDisabled && Selected(offset, table.physSize, e.session, 0).Never?
    }

    /** One event; a disabled entry does nothing. From inside, the window leaves the device
        exactly when a partition is selected that begins behind the end of it. */
    method Handle(e: Event) returns (hung: bool)
      requires Valid() && ValidEvent(e)
      modifies this
      ensures Valid() && hung == old(Hangs(e)) && (hung ==> Hangs(e))
      ensures old(Inside()) ==> !hung && (Inside() <==> mode == BY_OFFSET || table.parts[part].offset <= table.physSize)
      ensures hung ==> !Inside()
      ensures old(StartsInside(table)) && LoadsInside(e) ==> StartsInside(table)
    {
      hide Selected, StartsInside, Loaded;
      hung := false;
      match e {
        case ToggleDevice(t) =>
          DeviceToggle(t);
          LoadedInside(device, t);
        case ToggleMode =>
          if !modeDisabled {
            ModeToggle();
          }
        case TogglePart =>
          if !partDisabled {
            PartToggle();
          }
        case EditOffset(session) =>
          if !offsetDisabled {
            hung := OffsetEdit(session);
          }
        case EditSize(session) =>
          if !sizeDisabled {
            SizeEdit(session);
          }
        case ToggleRo =>
          RoToggle();
      }
    }
  }

  predicate AllInside(events: seq<Event>) {
    forall i | 0 <= i < |events| :: LoadsInside(events[i])
  }

  /** `ums_sub_storage_cb`: the editor from its start on. */
  method Edit(sdError: bool, emmcError: bool, t: Table, events: seq<Event>) returns (c: Config, hung: bool)
    requires ValidTable(t) && !(sdError && emmcError) && forall i | 0 <= i < |events| :: ValidEvent(events[i])
    ensures c.Valid() && (c.Inside() <==> c.offset <= c.table.physSize) && (hung ==> !c.Inside())
    ensures StartsInside(t) && AllInside(events) ==> c.Inside() && !hung
  {
    c := new Config(sdError, emmcError, t);
    c.InsideExactly();
    var done;
    hung, done := c.Run(events);
  }

  /** A partition behind the end of its device, then the other mode, and pressing down on the
      second byte of the offset hangs the editor. */
  method HangExample() returns (hung: bool)
    ensures hung
  {
    var c := new Config(false, false, Table(10, 1, seq(PARTS, _ => Part(20, 5))));
    c.ModeToggle();
    NeverExample();
    hung := c.OffsetEdit([[], [], [false], []]);
  }

  /** A partition behind the end of its device, and the window is outside at once. */
  method OutsideExample() returns (c: Config)
    ensures c.Valid() && !c.Inside()
  {
    c := new Config(false, false, Table(10, 1, seq(PARTS, _ => Part(20, 5))));
  }

  function BootTable(): (t: Table)
    ensures StartsInside(t)
  {
    Table(0x2000, 0, seq(PARTS, _ => Part(0, 0)))
  }

  function Loaded(device: nat, t: Table): Table {
    if device == EMMC_BOOT0 || device == EMMC_BOOT1 then BootTable() else t
  }

  /** With both storages working the devices come in turn, and all of them do. */
  lemma DeviceCycle(d: nat, sdError: bool)
    requires d < 4
    ensures NextDevice(d, sdError, false) == (d + 1) % 4 && NextDevice(0, sdError, true) == 0
  {
  }

  lemma LoadedInside(device: nat, t: Table)
    ensures StartsInside(t) ==> StartsInside(Loaded(device, t))
  {
  }

  /** From the last device the menu always goes on to the SD card, whether it works or not. */
  function NextDevice(device: nat, sdError: bool, emmcError: bool): nat {
    if device == SD then if emmcError then SD else EMMC_GPP
    else if device == EMMC_BOOT1 then SD else device + 1
  }
}

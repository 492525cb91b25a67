/** The PIO read of stage2/ATA_DRIVER (pio_read28.c, ata_helpers.c) against a drive that follows the PIO
    data-in protocol, section 9.5 of ATA/ATAPI-6. */
module Ata {
  import opened Ints
  import opened Disk
  import opened Words

  const POLLS := 100000 // ATA_TIMEOUT_BSY and ATA_TIMEOUT_DRQ
  const LBA28 := 0x1000_0000
  const READ_SECTORS: Byte := 0x20

  /** `ata_last_error`; anything but `Fine` is the return value -1. */
  datatype Error = Fine | StatusError | InvalidArgument | DrqTimeout | BsyTimeout | DeviceFault | BusFloat | DrqLost

  // ---------- the registers ----------

  predicate Bit(s: bv8, mask: bv8) {
    s & mask != 0
  }

  /** LBA[27:24], the low half of the device register. */
  function Nibble(sel: bv8): (n: nat)
    ensures n < 16
  {
    var low := sel & 0x0F;
    assert low < 16;
    low as nat
  }

  /** The 28-bit block address that four registers name. */
  function AddressOf(sel: bv8, low: Byte, mid: Byte, high: Byte): nat {
    low + 0x100 * mid + 0x1_0000 * high + 0x100_0000 * Nibble(sel)
  }

  function CountOf(count: Byte): (n: nat)
    ensures 1 <= n <= 256
  {
    if count == 0 then 256 else count
  }

  /** LBA mode, and device 0. */
  predicate Addressed(sel: bv8) {
    Bit(sel, 0x40) && !Bit(sel, 0x10)
  }

  /** Setting the low half to `n` reads back as `n` and keeps the high half. */
  lemma NibbleBack(sel: bv8, n: nat)
    requires n < 16
    ensures Nibble((sel & 0xF0) | (n as bv8)) == n
    ensures ((sel & 0xF0) | (n as bv8)) & 0xF0 == sel & 0xF0
  {
    var b := n as bv8;
    assert b < 16;
    assert ((sel & 0xF0) | b) & 0x0F == b;
    assert b as nat == n;
  }

  lemma LowBitsKept(sel: bv8)
    ensures Nibble((sel & 0x4F) | 0xE0) == Nibble(sel) && Nibble((sel & 0x4F) | 0xE0 | 0x10) == Nibble(sel)
    ensures Addressed((sel & 0x4F) | 0xE0)
    ensures Bit((sel & 0x4F) | 0xE0 | 0x10, 0x10)
  {
    assert ((sel & 0x4F) | 0xE0) & 0x0F == sel & 0x0F;
    assert ((sel & 0x4F) | 0xE0 | 0x10) & 0x0F == sel & 0x0F;
  }

  /** The four digits of a 28-bit number in base 256 give the number back. */
  lemma DigitsBack(lba: nat)
    requires lba < LBA28
    ensures lba / 0x100_0000 % 16 == lba / 0x100_0000 < 16
    ensures lba % 0x100 + 0x100 * (lba / 0x100 % 0x100) + 0x1_0000 * (lba / 0x1_0000 % 0x100)
         + 0x100_0000 * (lba / 0x100_0000) == lba
  {
    assert lba / 0x1_0000 == lba / 0x100 / 0x100;
    assert lba / 0x100_0000 == lba / 0x1_0000 / 0x100;
  }

  lemma AddressBack(sel: bv8, lba: nat)
    requires lba < LBA28
    ensures var top := lba / 0x100_0000 % 16; var now := (sel & 0xF0) | (top as bv8);
            && AddressOf(now, lba % 0x100, lba / 0x100 % 0x100, lba / 0x1_0000 % 0x100) == lba
            && now & 0xF0 == sel & 0xF0
  {
    hide Nibble, AddressOf;
    var top := lba / 0x100_0000 % 16;
    NibbleBack(sel, top);
    AddressSum((sel & 0xF0) | (top as bv8), lba);
  }

  lemma AddressSum(sel: bv8, lba: nat)
    requires lba < LBA28 && Nibble(sel) == lba / 0x100_0000 % 16
    ensures AddressOf(sel, lba % 0x100, lba / 0x100 % 0x100, lba / 0x1_0000 % 0x100) == lba
  {
    hide Nibble;
    DigitsBack(lba);
  }

  datatype Mode = Chs | Lba
  datatype Which = Master | Slave

  /** `DEVICE_EXTENDED_28` with its setters. */
  class Request {
    var count: Byte
    var low: Byte
    var mid: Byte
    var high: Byte
    var sel: bv8
    var command: Byte

    constructor ()
      ensures count == low == mid == high == command == 0 && sel == 0
    {
      count, low, mid, high, sel, command := 0, 0, 0, 0, 0, 0;
    }

    function Address(): nat
      reads this
    {
      AddressOf(sel, low, mid, high)
    }

    /** The three address bytes. */
    method SetLow(lba: nat)
      modifies this`low, this`mid, this`high
      ensures low == lba % 0x100 && mid == lba / 0x100 % 0x100 && high == lba / 0x1_0000 % 0x100
    {
      low := lba % 0x100;
      mid := lba / 0x100 % 0x100;
      high := lba / 0x1_0000 % 0x100;
    }

    method SetLba(lba: U32) returns (e: Error)
      modifies this
      ensures e == if lba < LBA28 then Fine else InvalidArgument
      ensures e == Fine ==> Address() == lba && sel & 0xF0 == old(sel) & 0xF0
      ensures e != Fine ==> unchanged(this)
      ensures count == old(count) && command == old(command)
    {
      hide AddressOf, Nibble;
      if lba / LBA28 != 0 {
        return InvalidArgument;
      }
      var top := lba / 0x100_0000 % 16;
      AddressBack(sel, lba);
      sel := (sel & 0xF0) | (top as bv8);
      SetLow(lba);
      return Fine;
    }

    method SetSectorCount(sectors: U32) returns (e: Error)
      modifies this`count
      ensures e == if 1 <= sectors <= 256 then Fine else InvalidArgument
      ensures if e == Fine then CountOf(count) == sectors else count == old(count)
    {
      if sectors == 0 || sectors > 256 {
        return InvalidArgument;
      }
      count := if sectors == 256 then 0 else sectors;
      return Fine;
    }

    method SetMode(m: Mode)
      modifies this`sel
      ensures Bit(sel, 0x40) <==> m == Lba
      ensures sel & 0xBF == old(sel) & 0xBF
    {
      match m
      case Lba => sel := sel | 0x40;
      case Chs => sel := sel & 0xBF;
    }

    /** Also forces LBA mode: the mandatory bits include the mode bit. */
    method SetDrive(w: Which)
      modifies this`sel
      ensures Address() == old(Address())
      ensures Bit(sel, 0x40) && (Addressed(sel) <==> w == Master)
    {
      LowBitsKept(sel);
      sel := sel & 0x4F;
      sel := sel | 0xE0;
      if w == Slave {
        sel := sel | 0x10;
      }
    }

    method SetCommand(c: Byte)
      modifies this`command
      ensures command == c
    {
      command := c;
    }
  }

  // ---------- the drive ----------

  /** `Busy` with a command that moves no data; `Prepare` and `Transfer` are the states of the same names
      in section 9.5; `Failed` is idle with the error bit; `Lost` is anything the standard leaves open. */
  datatype Phase = Idle | Busy | Prepare | Transfer | Failed | Lost

  /** Word `k` of a sector, low byte first. */
  function WordOf(s: Sector, k: nat): (w: U16)
    requires k < 256
    ensures w % 256 == s[2 * k] && w / 256 == s[2 * k + 1]
  {
    s[2 * k] as int + 256 * (s[2 * k + 1] as int)
  }

  const SETTLES := 4 // status reads in 400 ns

  /** A drive with nondeterministic timing, status bits and failures. A healthy one fails only beyond its
      capacity and prepares each sector within `POLLS` status reads. */
  class Drive {
    const disk: Image
    const capacity: nat
    const healthy: bool
    var phase: Phase
    var settling: nat // status reads that may still show anything
    var wait: nat // status reads until the present phase ends
    var next: nat // the sector being prepared or transferred
    var left: nat // the sectors still owed, this one included
    var word: nat // words of this sector already read
    var count: Byte
    var low: Byte
    var mid: Byte
    var high: Byte
    var sel: bv8
    ghost var shown: seq<bv8> // every status read so far

    constructor (disk: Image, capacity: nat, healthy: bool)
      ensures Ready() && this.disk == disk && this.capacity == capacity && this.healthy == healthy
    {
      this.disk, this.capacity, this.healthy := disk, capacity, healthy;
      phase, settling, wait, next, left, word, shown := Idle, 0, 0, 0, 0, 0, [];
      count, low, mid, high, sel := 0, 0, 0, 0, 0;
    }

    predicate Valid()
      reads this
    {
      && settling <= SETTLES
      && (healthy ==> wait < POLLS)
      && (phase == Prepare || phase == Transfer ==> left > 0 && word < 256)
      && (phase == Prepare ==> word == 0)
      && (phase == Transfer ==> next < capacity)
    }

    /** No earlier command has left a sector waiting, and the status can be trusted. */
    predicate Ready()
      reads this
    {
      Valid() && settling == 0 && (phase == Idle || phase == Busy || phase == Failed)
    }

    /** A sector is being prepared, waits, or could not be had. */
    predicate Reading()
      reads this
    {
      (phase == Prepare || phase == Transfer || phase == Failed) && word == 0
    }

    /** The phase after one more status read: ends of waits, and failures. */
    method Advance()
      requires Valid() && settling == 0
      modifies this`phase, this`wait
      ensures Valid()
      ensures match old(phase)
        case Busy => phase == (if old(wait) == 0 then Idle else Busy)
        case Prepare =>
          if old(wait) > 0 then phase == Prepare
          else if next >= capacity then phase == Failed
          else phase == Transfer || (phase == Failed && !healthy)
        case _ => phase == old(phase)
      ensures old(wait) > 0 && (phase == Busy || phase == Prepare) ==> wait == old(wait) - 1
    {
      if phase == Busy || phase == Prepare {
        if wait > 0 {
          wait := wait - 1;
        } else if phase == Busy {
          phase := Idle;
        } else {
          var fails: bool := *;
          phase := if next >= capacity || (fails && !healthy) then Failed else Transfer;
        }
      }
    }

    /** `inb` of the status register. */
    method Status() returns (s: bv8)
      requires Valid()
      modifies this`phase, this`wait, this`settling, this`shown
      ensures shown == old(shown) + [s]
      ensures Valid() && settling == (if old(settling) == 0 then 0 else old(settling) - 1)
      ensures old(settling) > 0 ==> phase == old(phase) && wait == old(wait)
      ensures old(settling) == 0 ==>
        match old(phase)
        case Busy => phase == (if old(wait) == 0 then Idle else Busy)
        case Prepare =>
          if old(wait) > 0 then phase == Prepare
          else if next >= capacity then phase == Failed
          else phase == Transfer || (phase == Failed && !healthy)
        case _ => phase == old(phase)
      ensures old(settling) == 0 && old(wait) > 0 && (phase == Busy || phase == Prepare) ==> wait == old(wait) - 1
      ensures old(settling) == 0 && phase != Lost ==>
        && (Bit(s, 0x80) <==> phase == Busy || phase == Prepare)
        && (Bit(s, 0x08) <==> phase == Transfer)
        && (phase == Failed ==> Bit(s, 0x01))
        && (healthy && phase != Failed ==> !Bit(s, 0x01) && !Bit(s, 0x20))
    {
      s := *;
      if settling > 0 {
        settling := settling - 1;
        shown := shown + [s];
        return;
      }
      Advance();
      match phase {
        case Busy => s := (s | 0x80) & 0xF7;
        case Prepare => s := (s | 0x80) & 0xF7;
        case Transfer => s := (s & 0x7F) | 0x08;
        case Idle => s := s & 0x77;
        case Failed => s := (s & 0x77) | 0x01;
        case Lost =>
      }
      if healthy && phase != Failed && phase != Lost {
        s := s & 0xDE;
      }
      shown := shown + [s];
    }

    /** `inw` of the data register. */
    method Data() returns (w: U16)
      requires Valid()
      modifies this`phase, this`wait, this`settling, this`next, this`left, this`word
      ensures Valid()
      ensures old(phase) != Transfer || old(settling) > 0 ==> phase == Lost
      ensures old(phase) == Transfer && old(settling) == 0 ==>
        && w == WordOf(disk(old(next)), old(word))
        && if old(word) < 255
           then phase == Transfer && settling == 0 && word == old(word) + 1 && next == old(next) && left == old(left)
           else if old(left) > 1
           then phase == Prepare && next == old(next) + 1 && left == old(left) - 1
           else phase == Idle && settling == 0
    {
      w := *;
      if phase != Transfer || settling > 0 {
        phase := Lost;
        return;
      }
      w := WordOf(disk(next), word);
      word := word + 1;
      if word == 256 {
        word, next, left := 0, next + 1, left - 1;
        phase := if left == 0 then Idle else Prepare;
        if left > 0 {
          Settle();
        }
      }
    }

    /** A new wait begins and the status is not valid for up to 400 ns. */
    method Settle()
      modifies this`settling, this`wait
      ensures settling <= SETTLES && (healthy ==> wait < POLLS)
    {
      settling := *;
      wait := *;
      if settling > SETTLES { settling := SETTLES; }
      if healthy && wait >= POLLS { wait := POLLS - 1; }
    }

    /** A register may be written when the drive is idle and its status settled. */
    predicate Writable()
      reads this
    {
      settling == 0 && (phase == Idle || phase == Failed)
    }

    method WriteSel(v: bv8)
      requires Valid()
      modifies this`sel, this`phase, this`settling, this`wait
      ensures Valid() && phase == (if old(Writable()) then old(phase) else Lost)
      ensures sel == v
    {
      phase := if Writable() then phase else Lost;
      sel := v;
      Settle();
    }

    /** The sector count and the three address registers. */
    method WriteBlock(count: Byte, low: Byte, mid: Byte, high: Byte)
      requires Valid()
      modifies this`count, this`low, this`mid, this`high, this`phase
      ensures Valid() && phase == (if old(Writable()) then old(phase) else Lost)
      ensures this.count == count && this.low == low && this.mid == mid && this.high == high
    {
      phase := if Writable() then phase else Lost;
      this.count, this.low, this.mid, this.high := count, low, mid, high;
    }

    /** READ SECTOR(S) to device 0 in LBA mode starts a transfer; any other command is not modelled. */
    method Command(c: Byte)
      requires Valid()
      modifies this`phase, this`settling, this`wait, this`next, this`left, this`word
      ensures Valid()
      ensures if old(Writable()) && c == 0x20 && Addressed(sel)
              then phase == Prepare && next == AddressOf(sel, low, mid, high) && left == CountOf(count)
              else phase == Lost
    {
      if Writable() && c == 0x20 && Addressed(sel) {
        phase, next, left, word := Prepare, AddressOf(sel, low, mid, high), CountOf(count), 0;
        Settle();
      } else {
        phase := Lost;
      }
    }
  }

  // ---------- the driver ----------

  /** `n` statuses more, all of which say to go on. */
  ghost predicate StillWaiting(was: seq<bv8>, now: seq<bv8>, n: nat, mask: bv8, wanted: bool, timeout: Error) {
    && was <= now && |now| == |was| + n
    && forall i :: |was| <= i < |now| ==> Verdict(now[i], mask, wanted, timeout) == timeout
  }

  /** What a status says to a wait that ends when whether a bit of `mask` is set is as `wanted`. */
  function Verdict(s: bv8, mask: bv8, wanted: bool, timeout: Error): Error {
    if s == 0xFF then BusFloat
    else if s & 0x01 != 0 then StatusError
    else if (s & mask != 0) == wanted then Fine
    else timeout
  }

  /** The statuses of a wait: the last one decides, those before it say to go on, and a timeout comes exactly
      after 100000 of them. */
  ghost predicate Waited(e: Error, was: seq<bv8>, now: seq<bv8>, mask: bv8, wanted: bool, timeout: Error) {
    && was < now && |now| <= |was| + 100000
    && e == Verdict(now[|now| - 1], mask, wanted, timeout)
    && (e == timeout ==> |now| == |was| + 100000)
    && forall i :: |was| <= i < |now| - 1 ==> Verdict(now[i], mask, wanted, timeout) == timeout
  }

  /** `ata_wait_not_bsy`. */
  method WaitNotBusy(drive: Drive) returns (e: Error)
    requires drive.Valid()
    modifies drive`phase, drive`wait, drive`settling, drive`shown
    ensures drive.Valid() && e != InvalidArgument
    ensures Waited(e, old(drive.shown), drive.shown, 0x80, false, BsyTimeout)
    ensures old(drive.Ready()) ==> drive.Ready()
    ensures old(drive.Ready()) && e == Fine ==> drive.phase == Idle && old(drive.phase) != Failed
    ensures old(drive.Ready()) && old(drive.phase) != Failed ==> drive.phase != Failed
    ensures old(drive.Ready()) && old(drive.phase) == Failed ==> e == StatusError && drive.phase == Failed
    ensures old(drive.Ready()) && old(drive.phase) != Failed && drive.healthy ==> e == Fine
  {
    ghost var entry := drive.phase;
    ghost var ready := drive.Ready();
    var timeout := POLLS;
    while timeout > 0
      invariant 0 <= timeout <= POLLS && drive.Valid()
      invariant ready ==> drive.Ready() && (if timeout == POLLS then drive.phase == entry else drive.phase == Busy)
      invariant ready && timeout < POLLS ==> entry == Busy
      invariant ready && drive.healthy ==> drive.wait < timeout
      invariant StillWaiting(old(drive.shown), drive.shown, POLLS - timeout, 0x80, false, BsyTimeout)
    {
      timeout := timeout - 1;
      var status := drive.Status();
      if status == 0xFF { return BusFloat; }
      if Bit(status, 0x01) { return StatusError; }
      if !Bit(status, 0x80) { return Fine; }
    }
    return BsyTimeout;
  }

  /** `ata_wait_drq`. */
  method WaitData(drive: Drive) returns (e: Error)
    requires drive.Valid()
    modifies drive`phase, drive`wait, drive`settling, drive`shown
    ensures drive.Valid() && e != InvalidArgument
    ensures Waited(e, old(drive.shown), drive.shown, 0x08, true, DrqTimeout)
    ensures old(drive.Reading()) && old(drive.settling) == 0 ==>
      && drive.Reading() && drive.settling == 0
      && (e == Fine ==> drive.phase == Transfer)
      && (drive.healthy ==>
            if drive.next < drive.capacity && old(drive.phase) != Failed then e == Fine
            else e == StatusError && drive.phase == Failed)
  {
    ghost var entry := drive.Reading() && drive.settling == 0;
    ghost var sound := drive.healthy && drive.next < drive.capacity && drive.phase != Failed;
    var timeout := POLLS;
    while timeout > 0
      invariant 0 <= timeout <= POLLS && drive.Valid()
      invariant entry ==> drive.settling == 0 && drive.Reading()
      invariant entry && sound ==> drive.phase != Failed && (drive.wait < timeout || drive.phase == Transfer)
      invariant timeout == 0 && entry && sound ==> drive.phase != Transfer
      invariant entry && !sound && drive.healthy ==>
                  drive.phase == Failed || (drive.phase == Prepare && drive.next >= drive.capacity && drive.wait < timeout)
      invariant timeout == 0 && entry && drive.healthy ==> drive.phase != Failed
      invariant StillWaiting(old(drive.shown), drive.shown, POLLS - timeout, 0x08, true, DrqTimeout)
    {
      timeout := timeout - 1;
      var status := drive.Status();
      if status == 0xFF { return BusFloat; }
      if Bit(status, 0x01) { return StatusError; }
      if Bit(status, 0x08) { return Fine; }
    }
    return DrqTimeout;
  }

  /** `ata_wait_400ns`: four status reads. */
  method Wait400ns(drive: Drive)
    requires drive.Valid()
    modifies drive`phase, drive`wait, drive`settling, drive`shown
    ensures drive.Valid() && drive.settling == 0
    ensures old(drive.shown) <= drive.shown && |drive.shown| == |old(drive.shown)| + 4
    ensures old(drive.phase) == Idle ==> drive.phase == Idle
    ensures old(drive.Reading()) ==> drive.Reading()
    ensures old(drive.Reading()) && drive.healthy && drive.next < drive.capacity && old(drive.phase) != Failed ==>
              drive.phase != Failed
  {
    var s := drive.Status();
    s := drive.Status();
    s := drive.Status();
    s := drive.Status();
  }

  /** `flush_command`: waits, then writes the registers and the command. */
  method FlushCommand(drive: Drive, d: Request) returns (e: Error)
    requires drive.Valid()
    modifies drive
    ensures drive.Valid() && e != InvalidArgument
    // the command is written after a status without error or fault and four more; a fault alone is a fault
    ensures e == Fine ==>
      && |drive.shown| >= |old(drive.shown)| + 6
      && drive.shown[|drive.shown| - 5] & 0x21 == 0
    ensures e == DeviceFault ==> drive.shown != [] && drive.shown[|drive.shown| - 1] & 0x21 == 0x20
    ensures old(drive.Ready()) && e != Fine ==> drive.Ready()
    ensures old(drive.Ready()) && e == Fine && d.command == 0x20 && Addressed(d.sel) ==>
              && drive.phase == Prepare && drive.next == d.Address() && drive.left == CountOf(d.count)
              && old(drive.phase) != Failed
    ensures old(drive.Ready()) && old(drive.phase) == Failed ==> e == StatusError && drive.phase == Failed
    ensures old(drive.Ready()) && old(drive.phase) != Failed && drive.healthy ==> e == Fine
  {
    e := WaitNotBusy(drive);
    if e != Fine {
      return;
    }
    var status := drive.Status();
    if Bit(status, 0x01) { return StatusError; }
    if Bit(status, 0x20) { return DeviceFault; }
    drive.WriteSel(d.sel);
    Wait400ns(drive);
    drive.WriteBlock(d.count, d.low, d.mid, d.high);
    drive.Command(d.command);
  }

  /** The drive owes `left` sectors from `next` on and prepares the first of them. */
  ghost predicate Owes(drive: Drive, next: nat, left: nat)
    reads drive
  {
    drive.phase == Prepare && drive.next == next && drive.left == left
  }

  /** A sector waits whole. */
  ghost predicate Waits(drive: Drive)
    reads drive
  {
    drive.phase == Transfer && drive.settling == 0 && drive.word == 0
  }

  /** The drive after `k` of at most 256 words have been read from sector `next`, one of `left` owed. */
  ghost predicate Passed(drive: Drive, next: nat, left: nat, k: nat)
    reads drive
  {
    if k < 256 then
      && drive.phase == Transfer && drive.settling == 0 && drive.word == k
      && drive.next == next && drive.left == left
    else if left > 1 then Owes(drive, next + 1, left - 1)
    else drive.phase == Idle && drive.settling == 0
  }

  /** What the last test before the data says of a status. */
  function Accepted(s: bv8): Error {
    if s & 0x01 != 0 then StatusError else if s & 0x20 != 0 then DeviceFault else if s & 0x08 == 0 then DrqLost else Fine
  }

  /** `store_incoming_bytes`. A status of 0xFF has the error bit, so the last test of the source never
      decides. */
  method StoreIncomingBytes(drive: Drive, words: U16, buf: array<Byte>, at: nat) returns (e: Error)
    requires drive.Valid() && at + 2 * words <= buf.Length
    modifies drive, buf
    ensures drive.Valid() && e != InvalidArgument
    ensures |drive.shown| == |old(drive.shown)| + 1
    ensures e == Accepted(drive.shown[|drive.shown| - 1])
    ensures e != Fine ==> buf[..] == old(buf[..])
    ensures forall j :: 0 <= j < buf.Length && !(at <= j < at + 2 * words) ==> buf[j] == old(buf[j])
    ensures old(Waits(drive)) && e == Fine && words <= 256 ==>
      && buf[..] == Write(old(buf[..]), at, drive.disk(old(drive.next))[..2 * words])
      && Passed(drive, old(drive.next), old(drive.left), words)
    ensures old(Waits(drive)) && e != Fine ==> drive.phase == Transfer
    ensures old(Waits(drive)) && drive.healthy ==> e == Fine
  {
    ghost var transfer := Waits(drive) && words <= 256;
    ghost var sector := drive.disk(drive.next);
    ghost var next, left := drive.next, drive.left;
    var status := drive.Status();
    if Bit(status, 0x01) { return StatusError; }
    if Bit(status, 0x20) { return DeviceFault; }
    if !Bit(status, 0x08) { return DrqLost; }
    for i := 0 to words
      invariant drive.Valid() && drive.shown == old(drive.shown) + [status]
      invariant transfer ==> Passed(drive, next, left, i)
      invariant transfer ==> forall j :: 0 <= j < 2 * i ==> buf[at + j] == sector[j]
      invariant forall j :: 0 <= j < buf.Length && !(at <= j < at + 2 * i) ==> buf[j] == old(buf[j])
    {
      var data := drive.Data();
      buf[at + 2 * i] := data % 256;
      buf[at + 2 * i + 1] := data / 256;
    }
    if transfer {
      WriteIs(old(buf[..]), at, sector[..2 * words], buf[..]);
    }
    return Fine;
  }

  lemma OneMoreSector(now: seq<Byte>, mid: seq<Byte>, was: seq<Byte>, at: nat, disk: Image, lba: nat, k: nat)
    requires at + (k + 1) * SECTOR <= |was| && Stored(mid, was, at, disk, lba, k)
    requires now == Write(mid, at + k * SECTOR, disk(lba + k)[..SECTOR])
    ensures Stored(now, was, at, disk, lba, k + 1)
  {
    hide Write;
    assert disk(lba + k)[..SECTOR] == disk(lba + k);
    WriteAbove(was, at, Sectors(disk, lba, k), disk(lba + k));
  }

  lemma NoSector(was: seq<Byte>, at: nat, disk: Image, lba: nat)
    requires at <= |was|
    ensures Stored(was, was, at, disk, lba, 0)
  {
  }

  /** Sectors lba .. lba + k - 1, and no more, have been stored from `at` on. */
  predicate Stored(now: seq<Byte>, was: seq<Byte>, at: nat, disk: Image, lba: nat, k: nat) {
    at + k * SECTOR <= |was| && now == Write(was, at, Sectors(disk, lba, k))
  }

  /** The setters of `pio28_read`, in its order. */
  method ReadRequest(sectors: U32, lba: U32) returns (e: Error, d: Request)
    ensures e == if 1 <= sectors <= 256 && lba < LBA28 then Fine else InvalidArgument
    ensures fresh(d)
    ensures e == Fine ==>
      && Addressed(d.sel) && d.Address() == lba && CountOf(d.count) == sectors && d.command == READ_SECTORS
  {
    d := new Request();
    d.SetMode(Lba);
    e := d.SetSectorCount(sectors);
    if e != Fine { return; }
    e := d.SetLba(lba);
    if e != Fine { return; }
    d.SetDrive(Master);
    d.SetCommand(READ_SECTORS);
  }

  /** How many of `n` sectors from `lba` on a disk has. */
  function Available(capacity: nat, lba: nat, n: nat): (k: nat)
    ensures k <= n && (k == n <==> lba + n <= capacity || n == 0)
  {
    if lba + n <= capacity then n else if lba < capacity then capacity - lba else 0
  }

  /** What came of a read of `n` sectors: all of them, or the error and a shorter run of whole ones. On a
      healthy drive it is an error exactly past the capacity, after the sectors below it, and the drive
      shows it. */
  ghost predicate Outcome(e: Error, drive: Drive, now: seq<Byte>, was: seq<Byte>, at: nat, lba: nat, n: nat)
    reads drive
  {
    && drive.phase != Lost
    && (e == Fine ==>
          && Stored(now, was, at, drive.disk, lba, n)
          && drive.Ready() && drive.phase == Idle && lba + n <= drive.capacity)
    && (e != Fine ==> exists k: nat :: k < n && Stored(now, was, at, drive.disk, lba, k))
    && (drive.healthy ==> (e == Fine <==> lba + n <= drive.capacity))
    && (drive.healthy && e != Fine ==>
          && e == StatusError && drive.Ready() && drive.phase == Failed
          && Stored(now, was, at, drive.disk, lba, Available(drive.capacity, lba, n)))
  }

  lemma NoneReceived(e: Error, drive: Drive, was: seq<Byte>, at: nat, lba: nat, n: nat)
    requires e != Fine && drive.Ready() && !drive.healthy && n > 0 && at <= |was|
    ensures Outcome(e, drive, was, was, at, lba, n)
  {
    NoSector(was, at, drive.disk, lba);
  }

  /** The sector loop of `pio28_read`. */
  method Receive(dest: array<Byte>, at: nat, drive: Drive, sectors: nat, lba: nat) returns (e: Error)
    requires drive.Valid() && sectors > 0 && at + sectors * SECTOR <= dest.Length
    modifies drive, dest
    ensures drive.Valid() && e != InvalidArgument
    ensures old(Owes(drive, lba, sectors)) ==> Outcome(e, drive, dest[..], old(dest[..]), at, lba, sectors)
  {
    hide Write, Stored;
    ghost var owed := Owes(drive, lba, sectors);
    ghost var was := dest[..];
    NoSector(was, at, drive.disk, lba);
    for s := 0 to sectors
      invariant drive.Valid()
      invariant owed ==> Stored(dest[..], was, at, drive.disk, lba, s)
      invariant owed && s < sectors ==> Owes(drive, lba + s, sectors - s)
      invariant owed && s > 0 ==> lba + s <= drive.capacity
      invariant owed && s == sectors ==> drive.phase == Idle && drive.settling == 0
    {
      Wait400ns(drive);
      e := WaitData(drive);
      assert owed ==> Stored(dest[..], was, at, drive.disk, lba, s);
      if e != Fine { return; }
      ghost var mid := dest[..];
      e := StoreIncomingBytes(drive, 256, dest, at + s * SECTOR);
      if e != Fine { return; }
      if owed {
        OneMoreSector(dest[..], mid, was, at, drive.disk, lba, s);
      }
    }
    return Fine;
  }

  /** `pio28_read` into `dest` from byte `at` on. */
  method Pio28Read(dest: array<Byte>, at: nat, drive: Drive, sectors: U32, lba: U32) returns (e: Error)
    requires drive.Valid() && (sectors <= 256 ==> at + sectors * SECTOR <= dest.Length)
    modifies drive, dest
    ensures drive.Valid()
    // refused without a sign on the bus, exactly outside 1..256 sectors and 28 bits
    ensures e == InvalidArgument <==> !(1 <= sectors <= 256 && lba < 0x1000_0000)
    ensures e == InvalidArgument ==> unchanged(drive) && dest[..] == old(dest[..])
    // an earlier error is never cleared
    ensures old(drive.Ready()) && old(drive.phase) == Failed && e != InvalidArgument ==>
      e == StatusError && drive.Ready() && drive.phase == Failed && dest[..] == old(dest[..])
    // otherwise all sectors come, or a shorter run of them and the error
    ensures old(drive.Ready()) && old(drive.phase) != Failed && e != InvalidArgument ==>
      Outcome(e, drive, dest[..], old(dest[..]), at, lba, sectors)
  {
    hide Write, Outcome;
    if sectors == 0 {
      return InvalidArgument;
    }
    var d;
    e, d := ReadRequest(sectors, lba);
    if e != Fine { return; }
    e := FlushCommand(drive, d);
    if e == Fine {
      e := Receive(dest, at, drive, sectors, lba);
    } else if drive.Ready() && !drive.healthy {
      NoneReceived(e, drive, dest[..], at, lba, sectors);
    }
  }
}

/** The SPI NOR stack: read opcode and address width selection, chunked reads, burst
    counters, against a flash that decodes what is clocked into it. */
module SpiNor {
  import opened Numbers

  const READ_SLOW: byte := 0x03
  const READ_FAST: byte := 0x0b
  const READ_DUAL: byte := 0x3b
  const READ_QUAD: byte := 0x6b
  const READ4_DUAL: byte := 0x3c
  const READ4_QUAD: byte := 0x6c
  const ENTER_4B: byte := 0xb7
  const READ_CONFIG: byte := 0x35
  const READ_ID: byte := 0x9f

  const READ_LEN: nat := 0x1_0000
  const COUNT_LIMIT: nat := 0x100_0000

  // ---------------------------------------------------------------- the flash

  /** A flash chip: its contents, its address mode, and whether it has a 4-byte mode. */
  datatype Flash = Flash(mem: seq<byte>, fourByte: bool, hasFourByte: bool)

  predicate IsRead(op: byte) {
    op == READ_SLOW || op == READ_FAST || op == READ_DUAL || op == READ_QUAD || op == READ4_DUAL || op == READ4_QUAD
  }

  /** Address bytes the flash expects after a read opcode. */
  function AddressBytes(flash: Flash, op: byte): nat {
    if flash.fourByte || op == READ4_DUAL || op == READ4_QUAD then 4 else 3
  }

  function DummyBytes(op: byte): nat { if op == READ_SLOW then 0 else 1 }

  /** Data lines the flash drives while answering. */
  function Lines(op: byte): nat {
    if op == READ_DUAL || op == READ4_DUAL then 2 else if op == READ_QUAD || op == READ4_QUAD then 4 else 1
  }

  /** The bytes the flash sends from an address on. */
  function Stream(flash: Flash, addr: nat, count: nat): seq<byte>
    requires addr + count <= |flash.mem|
  {
    flash.mem[addr..addr + count]
  }

  /** A byte's bits 7, 5, 3, 1: what a single line sees of a byte sent on two lines. */
  function OddBits(b: byte): (h: nat)
    ensures h < 16
  {
    b / 128 % 2 * 8 + b / 32 % 2 * 4 + b / 8 % 2 * 2 + b / 2 % 2
  }

  /** What a controller listening on one line makes of a stream sent on two. */
  function HalfHeard(s: seq<byte>, count: nat): (r: seq<byte>)
    requires 2 * count <= |s|
    ensures |r| == count
  {
    seq(count, i requires 0 <= i < count => OddBits(s[2*i]) * 16 + OddBits(s[2*i+1]))
  }

  /** The flash's answer to a read as a controller listening on `lines` receives it; None
      if the bytes sent do not make up a command or the lines cannot be told apart here. */
  function Answer(flash: Flash, tx: seq<byte>, lines: nat, count: nat): Option<seq<byte>> {
    if tx == [] || !IsRead(tx[0]) then None
    else
      var a := AddressBytes(flash, tx[0]);
      if |tx| != 1 + a + DummyBytes(tx[0]) then None
      else
        var addr := BigEndian(tx[1..1 + a]);
        if Lines(tx[0]) == lines && addr + count <= |flash.mem| then Some(Stream(flash, addr, count))
        else if Lines(tx[0]) == 2 && lines == 1 && addr + 2 * count <= |flash.mem|
        then Some(HalfHeard(Stream(flash, addr, 2 * count), count))
        else None
  }

  // ---------------------------------------------------------------- the driver's choices

  /** The part of the boot header the driver looks at; None when booting secure firmware. */
  datatype Header = Header(readMode: int, flashSizeMB: int)

  /** spinor_set_readcmd. */
  function ChosenCmd(stored: byte, header: Option<Header>): byte {
    if header.None? || header.value.readMode == 0 then stored
    else if header.value.readMode == 4 then READ_QUAD
    else if header.value.readMode == 2 then READ_DUAL
    else if header.value.readMode == 1 then READ_FAST
    else stored
  }

  function To4(cmd: byte): byte {
    if cmd == READ_DUAL then READ4_DUAL else if cmd == READ_QUAD then READ4_QUAD else cmd
  }

  function To3(cmd: byte): byte {
    if cmd == READ4_DUAL then READ_DUAL else if cmd == READ4_QUAD then READ_QUAD else cmd
  }

  /** Address bytes the driver sends. */
  function SentAddressBytes(mode4: bool): nat { if mode4 then 4 else 3 }

  /** Driver and flash agree about the command in use. */
  predicate Consistent(readCmd: byte, mode4: bool, flash: Flash) {
    && IsRead(readCmd)
    && SentAddressBytes(mode4) == AddressBytes(flash, readCmd)
    && (readCmd == READ4_DUAL || readCmd == READ4_QUAD ==> mode4 && flash.fourByte)
    && (readCmd == READ_DUAL || readCmd == READ_QUAD ==> !mode4 && !flash.fourByte)
  }

  /** spinor_config_addr_mode and the dummy byte: the bytes sent for a read. */
  function Command(readCmd: byte, mode4: bool, addr: nat): seq<byte> {
    [readCmd]
    + (if mode4 then [addr / 0x100_0000 % 256] else [])
    + [addr / 0x1_0000 % 256, addr / 0x100 % 256, addr % 256]
    + (if readCmd == READ_SLOW then [] else [0])
  }

  /** Data lines the controller listens on for a command (sunxi_spi_mode_check). */
  function LinesSet(cmd: byte): nat {
    if cmd == READ_QUAD || cmd == READ4_QUAD then 4 else if cmd == READ_DUAL then 2 else 1
  }

  // ---------------------------------------------------------------- command bytes against the flash

  lemma ThreeBytes(a: byte, b: byte, c: byte)
    ensures BigEndian([a, b, c]) == a * 0x1_0000 + b * 0x100 + c
  {
    BigEndianLast([], a);
    BigEndianLast([a], b);
    BigEndianLast([a, b], c);
    assert [] + [a] == [a] && [a] + [b] == [a, b] && [a, b] + [c] == [a, b, c];
  }

  lemma FourBytes(a: byte, b: byte, c: byte, d: byte)
    ensures BigEndian([a, b, c, d]) == a * 0x100_0000 + b * 0x1_0000 + c * 0x100 + d
  {
    ThreeBytes(a, b, c);
    BigEndianLast([a, b, c], d);
    assert [a, b, c] + [d] == [a, b, c, d];
  }

  /** First byte behind the addresses the driver can send. */
  function AddressLimit(mode4: bool): nat { if mode4 then 0x1_0000_0000 else 0x100_0000 }

  /** A consistent driver's command is taken by the flash as a read from the intended address. */
  lemma CommandDecodes(readCmd: byte, mode4: bool, flash: Flash, addr: nat, lines: nat, count: nat)
    requires Consistent(readCmd, mode4, flash) && addr < AddressLimit(mode4)
    ensures Answer(flash, Command(readCmd, mode4, addr), lines, count)
            == if Lines(readCmd) == lines && addr + count <= |flash.mem| then Some(Stream(flash, addr, count))
               else if Lines(readCmd) == 2 && lines == 1 && addr + 2 * count <= |flash.mem|
               then Some(HalfHeard(Stream(flash, addr, 2 * count), count))
               else None
  {
    var tx := Command(readCmd, mode4, addr);
    var a := AddressBytes(flash, readCmd);
    assert tx[0] == readCmd && |tx| == 1 + a + DummyBytes(readCmd);
    WordFromBytes(addr);
    var b3, b2, b1, b0 := addr / 0x100_0000 % 256, addr / 0x1_0000 % 256, addr / 0x100 % 256, addr % 256;
    if mode4 {
      assert tx[1..1 + a] == [b3, b2, b1, b0];
      FourBytes(b3, b2, b1, b0);
    } else {
      assert tx[1..1 + a] == [b2, b1, b0];
      ThreeBytes(b2, b1, b0);
    }
  }

  // ---------------------------------------------------------------- the driver

  class Driver {
    var flash: Flash
    var readCmd: byte
    var mode4: bool
    // fields of the controller's burst registers
    var dual: bool
    var quad: bool
    var burst: nat
    var transmit: nat
    var single: nat
    ghost var faults: nat   // transfers that failed

    /** The state after reset, before the flash has been looked at. */
    constructor (flash: Flash)
      ensures this.flash == flash && readCmd == READ_FAST && !mode4
    {
      this.flash := flash;
      readCmd, mode4 := READ_FAST, false;
      dual, quad, burst, transmit, single := false, false, 0, 0, 0;
    }

    /** A transfer may fail at any time. */
    method Transfer() returns (ok: bool)
      modifies `faults
      ensures faults == old(faults) + if ok then 0 else 1
    {
      ok := *;
      if !ok {
        faults := faults + 1;
      }
    }

    /** spi_set_bc_tc_stc: the counters are 24 bits wide.  The bytes left to receive are the
        ones wanted exactly when their sum with the bytes sent fits. */
    method SetCounts(tx: nat, rx: nat, stc: nat)
      requires tx < COUNT_LIMIT && rx < 0x1_0000_0000
      modifies `burst, `transmit, `single
      ensures burst < COUNT_LIMIT && transmit == tx && single == stc % COUNT_LIMIT
      ensures burst - transmit == rx <==> tx + rx < COUNT_LIMIT
    {
      burst := (tx + rx) % COUNT_LIMIT;
      transmit := tx % COUNT_LIMIT;
      single := stc % COUNT_LIMIT;
    }

    /** sunxi_spi_mode_check. */
    method ModeCheck(tx: nat, rx: nat, cmd: byte)
      requires tx < COUNT_LIMIT && rx < 0x1_0000_0000
      modifies `dual, `quad, `burst, `transmit, `single
      ensures LinesHeard() == LinesSet(cmd)
      ensures transmit == tx && (burst - transmit == rx <==> tx + rx < COUNT_LIMIT)
      ensures LinesSet(cmd) > 1 ==> single == tx
      ensures LinesSet(cmd) == 1 && tx + rx < COUNT_LIMIT ==> single == tx + rx
    {
      if cmd == READ_QUAD || cmd == READ4_QUAD {
        quad := true;
        SetCounts(tx, rx, tx);
      } else if cmd == READ_DUAL || cmd == READ_QUAD {
        quad := false;
        dual := true;
        SetCounts(tx, rx, tx);
      } else {
        dual := false;
        quad := false;
        SetCounts(tx, rx, tx + rx);
      }
    }

    /** Lines the controller listens on; the quad bit takes precedence. */
    function LinesHeard(): nat
      reads this
    {
      if quad then 4 else if dual then 2 else 1
    }

    /** spi_xfer for a read: the counters are set, whatever happens then.  It may fail at any
        time; a transfer whose counters do not leave the wanted number of bytes never completes. */
    method ReadXfer(tx: seq<byte>, rxLen: nat) returns (ok: bool, rx: seq<byte>)
      requires 0 < |tx| < COUNT_LIMIT && rxLen < 0x1_0000_0000
      modifies `dual, `quad, `burst, `transmit, `single, `faults
      ensures |rx| == rxLen && faults >= old(faults)
      ensures ok <==> faults == old(faults) && |tx| + rxLen < COUNT_LIMIT
      ensures transmit == |tx| && (burst - transmit == rxLen <==> |tx| + rxLen < COUNT_LIMIT)
      ensures |tx| + rxLen < COUNT_LIMIT ==> single == if LinesSet(tx[0]) > 1 then |tx| else |tx| + rxLen
      ensures ok && Answer(flash, tx, LinesSet(tx[0]), rxLen).Some? ==>
                rx == Answer(flash, tx, LinesSet(tx[0]), rxLen).value
    {
      ModeCheck(|tx|, rxLen, tx[0]);
      ok := Transfer();
      ok := ok && burst - transmit == rxLen;
      var noise: byte := *;
      rx := Repeat(noise, rxLen);
      if ok {
        var answer := Answer(flash, tx, LinesHeard(), burst - transmit);
        if answer.Some? && |answer.value| == rxLen {
          rx := answer.value;
        }
      }
    }

    /** spinor_enter_4bytes_addr(1): switch the flash and look at its configuration register.
        Neither transfer is checked: a lost switch command does nothing, and a lost
        configuration byte reads as 0. */
    method EnterFourByte(out: Outcome) returns (entered: bool)
      modifies `flash, `dual, `quad, `burst, `transmit, `single
      ensures flash == Switched(old(flash), out)
      ensures entered == (out.config && flash.fourByte)
    {
      var command := ENTER_4B;
      ModeCheck(1, 0, command);
      if out.enter {
        flash := Obeyed(flash, command);
      }
      var buf: byte := 0;
      command := READ_CONFIG;
      ModeCheck(1, 1, command);
      if out.config {
        var other: byte := *;
        buf := RegisterByte(flash, command, other);
      }
      entered := buf / 32 % 2 == 1;
    }

    /** spinor_init: command and address mode.  A read mode of the header is the number of lines
        the command uses. */
    method Init(stored: byte, header: Option<Header>, out: Outcome) returns (ret: int)
      modifies this
      ensures faults >= old(faults) && ret == (if faults == old(faults) then 0 else -1)
      ensures ret == -1 ==> flash == old(flash) && readCmd == old(readCmd) && mode4 == old(mode4)
      ensures ret == 0 ==> flash == InitFlash(old(flash), stored, header, out)
      ensures ret == 0 ==>
                (readCmd, mode4) ==
                InitChoice(stored, header, Entered(old(flash), stored, header, out), old(readCmd), old(mode4))
      ensures ret == 0 && header.Some? && header.value.readMode in {1, 2, 4} ==>
                Lines(readCmd) == header.value.readMode
    {
      var cmd := ChosenCmd(stored, header);
      var ok := Transfer();
      if !ok {
        return -1;
      }
      ModeCheck(1, 3, READ_ID);
      ok := Transfer();
      if !ok {
        return -1;
      }
      if IsRead(cmd) {
        if header.None? {
          cmd := To3(cmd);
          readCmd := cmd;
        } else {
          var entered := false;
          if header.value.flashSizeMB > 16 {
            entered := EnterFourByte(out);
          }
          if entered {
            mode4 := true;
            cmd := To4(cmd);
            readCmd := cmd;
          } else {
            cmd := To3(cmd);
            readCmd := cmd;
          }
        }
      }
      ret := 0;
    }

    /** One turn of the spinor_read loop.  Whatever the command, the counters leave exactly
        the chunk to receive. */
    method ReadChunk(addr: nat, offset: nat, todo: nat, buffer: array<byte>) returns (ok: bool)
      requires addr + offset < 0x1_0000_0000 && 0 < todo <= READ_LEN && offset + todo <= buffer.Length
      modifies `dual, `quad, `burst, `transmit, `single, `faults, buffer
      ensures faults >= old(faults) && (ok <==> faults == old(faults))
      ensures burst - transmit == todo && burst < COUNT_LIMIT
      ensures single == transmit + if LinesSet(readCmd) > 1 then 0 else todo
      ensures ok ==> ChunkRead(flash, readCmd, mode4, addr + offset, buffer[offset..offset + todo])
      ensures buffer[..offset] == old(buffer[..offset]) && buffer[offset + todo..] == old(buffer[offset + todo..])
    {
      var cmd := Command(readCmd, mode4, addr + offset);
      assert |cmd| <= 6 && cmd[0] == readCmd;
      var rx;
      hide Answer, Command, LinesSet;
      ok, rx := ReadXfer(cmd, todo);
      if ok {
        forall i | 0 <= i < todo {
          buffer[offset + i] := rx[i];
        }
        assert buffer[offset..offset + todo] == rx;
      }
    }

    /** spinor_read: chunks of at most 64 KiB into the buffer.  `left` lists the bytes that the
        counters left to receive, chunk by chunk. */
    method ReadSectors(start: nat, sectors: nat, buffer: array<byte>) returns (ret: int, ghost left: seq<int>)
      requires (start + sectors) * 512 <= 0x1_0000_0000 && sectors * 512 <= buffer.Length
      modifies `dual, `quad, `burst, `transmit, `single, `faults, buffer
      ensures faults >= old(faults) && ret == (if faults == old(faults) then 0 else -1)
      ensures ret == 0 ==> ChunksRead(flash, readCmd, mode4, start * 512, buffer[..sectors * 512])
      ensures forall c :: 0 <= c < |left| ==>
                c * READ_LEN < sectors * 512 && left[c] == ChunkSize(sectors * 512, c * READ_LEN)
      ensures ret == 0 ==> |left| * READ_LEN >= sectors * 512
      ensures buffer[sectors * 512..] == old(buffer[sectors * 512..])
    {
      hide ChunkRead;
      var len, addr, offset := sectors * 512, start * 512, 0;
      ghost var total, c := len, 0;
      left := [];
      while len > 0
        invariant 0 <= offset <= total && len == total - offset
        invariant faults == old(faults)
        invariant |left| == c && c * READ_LEN < total + READ_LEN
        invariant forall d :: 0 <= d < c ==> left[d] == ChunkSize(total, d * READ_LEN)
        invariant offset == if c * READ_LEN <= total then c * READ_LEN else total
        invariant buffer[total..] == old(buffer[total..])
        invariant forall d: nat :: d < c ==> ChunkOk(flash, readCmd, mode4, addr, buffer[..total], d)
      {
        var todo := if len > READ_LEN then READ_LEN else len;
        ghost var before := buffer[..total];
        ghost var head := buffer[..offset];
        assert before[..offset] == head;
        ghost var behind := buffer[total..];
        var ok := ReadChunk(addr, offset, todo, buffer);
        left := left + [burst - transmit];
        assert buffer[total..] == behind by {
          assert forall i :: total <= i < buffer.Length ==> buffer[i] == buffer[offset + todo..][i - offset - todo];
        }
        if !ok {
          return -1, left;
        }
        ghost var data := buffer[..total];
        assert data[..offset] == buffer[..offset] == head;
        forall d: nat | d < c ensures ChunkOk(flash, readCmd, mode4, addr, data, d) {
          ChunkKept(flash, readCmd, mode4, addr, before, data, offset, d);
        }
        assert data[offset..offset + todo] == buffer[offset..offset + todo];
        assert ChunkOk(flash, readCmd, mode4, addr, data, c);
        len := len - todo;
        offset := offset + todo;
        c := c + 1;
      }
      ghost var data := buffer[..total];
      forall d: nat ensures ChunkOk(flash, readCmd, mode4, addr, data, d) {
        if d < c {
        }
      }
      ret := 0;
    }
  }

  /** What a command byte makes of the flash's address mode. */
  function Obeyed(flash: Flash, op: byte): Flash {
    if op == 0xB7 then flash.(fourByte := flash.fourByte || flash.hasFourByte)
    else if op == 0xE9 then flash.(fourByte := false)
    else flash
  }

  /** The register byte a flash answers a command with: the configuration register tells its
      address mode in bit 5. */
  function RegisterByte(flash: Flash, op: byte, other: byte): byte {
    if op == 0x35 then ConfigByte(other, flash.fourByte) else other
  }

  function Repeat(b: byte, n: nat): (s: seq<byte>)
    ensures |s| == n
  {
    if n == 0 then [] else [b] + Repeat(b, n - 1)
  }

  /** A configuration register whose bit 5 reports the address mode. */
  function ConfigByte(other: byte, fourByte: bool): (b: byte)
    ensures b / 32 % 2 == 1 <==> fourByte
  {
    var cleared := other / 64 * 64 + other % 32;
    if fourByte then cleared + 32 else cleared
  }

  /** Size of the chunk at an offset. */
  function ChunkSize(total: nat, offset: nat): (n: nat)
    requires offset < total
    ensures 0 < n <= READ_LEN && offset + n <= total
  {
    if total - offset > READ_LEN then READ_LEN else total - offset
  }

  /** A chunk holds what the flash answers to its command, whenever that is defined. */
  ghost predicate ChunkRead(flash: Flash, readCmd: byte, mode4: bool, addr: nat, data: seq<byte>) {
    var answer := Answer(flash, Command(readCmd, mode4, addr), LinesSet(readCmd), |data|);
    answer.Some? ==> data == answer.value
  }

  /** Chunk `c` of the buffer, if there is one. */
  ghost predicate ChunkOk(flash: Flash, readCmd: byte, mode4: bool, addr: nat, data: seq<byte>, c: nat) {
    c * READ_LEN < |data| ==>
      ChunkRead(flash, readCmd, mode4, addr + c * READ_LEN,
          data[c * READ_LEN..c * READ_LEN + ChunkSize(|data|, c * READ_LEN)])
  }

  /** The chunks tile the buffer. */
  ghost predicate ChunksRead(flash: Flash, readCmd: byte, mode4: bool, addr: nat, data: seq<byte>) {
    forall c: nat :: ChunkOk(flash, readCmd, mode4, addr, data, c)
  }

  lemma ChunkKept(flash: Flash, readCmd: byte, mode4: bool, addr: nat, before: seq<byte>,
        after: seq<byte>, k: nat, c: nat)
    requires |before| == |after| && k <= |before| && before[..k] == after[..k] && (c + 1) * READ_LEN <= k
    requires ChunkOk(flash, readCmd, mode4, addr, before, c)
    ensures ChunkOk(flash, readCmd, mode4, addr, after, c)
  {
    hide ChunkRead;
    var lo, hi := c * READ_LEN, (c + 1) * READ_LEN;
    assert before[lo..hi] == before[..k][lo..hi] == after[..k][lo..hi] == after[lo..hi];
  }

  // ---------------------------------------------------------------- after initialisation

  /** Do the two transfers of the mode switch go through? */
  datatype Outcome = Outcome(enter: bool, config: bool)

  function Switched(flash: Flash, out: Outcome): Flash {
    flash.(fourByte := flash.fourByte || (out.enter && flash.hasFourByte))
  }

  /** Does initialisation try to switch the flash? */
  predicate Switches(stored: byte, header: Option<Header>) {
    IsRead(ChosenCmd(stored, header)) && header.Some? && header.value.flashSizeMB > 16
  }

  function InitFlash(flash: Flash, stored: byte, header: Option<Header>, out: Outcome): Flash {
    if Switches(stored, header) then Switched(flash, out) else flash
  }

  /** Is 4-byte mode reported to the driver? */
  predicate Entered(before: Flash, stored: byte, header: Option<Header>, out: Outcome) {
    Switches(stored, header) && out.config && InitFlash(before, stored, header, out).fourByte
  }

  /** Read command and address mode chosen by initialisation. */
  function InitChoice(stored: byte, header: Option<Header>, entered: bool, readCmd: byte, mode4: bool): (byte, bool) {
    var cmd := ChosenCmd(stored, header);
    if !IsRead(cmd) then (readCmd, mode4)
    else if entered then (To4(cmd), true)
    else (To3(cmd), mode4)
  }

  /** The choice made from reset. */
  function ResetChoice(before: Flash, stored: byte, header: Option<Header>, out: Outcome): (byte, bool) {
    InitChoice(stored, header, Entered(before, stored, header, out), READ_FAST, false)
  }

  /** From reset, driver and flash agree exactly when the flash ended in 3-byte mode or its
      configuration byte was looked at and came through. */
  lemma InitConsistentExactly(before: Flash, stored: byte, header: Option<Header>, out: Outcome)
    ensures
      var (cmd, mode4) := ResetChoice(before, stored, header, out);
      Consistent(cmd, mode4, InitFlash(before, stored, header, out)) <==>
      || !(before.fourByte || (Switches(stored, header) && out.enter && before.hasFourByte))
      || (Switches(stored, header) && out.config)
  {}

  /** From reset, the addresses the driver can send reach the whole flash of the header exactly
      when it has at most 16 MiB, or 4-byte mode was reported and it has at most 4 GiB. */
  lemma ReachesAllExactly(before: Flash, stored: byte, h: Header, out: Outcome)
    ensures h.flashSizeMB * 0x10_0000 <= AddressLimit(ResetChoice(before, stored, Some(h), out).1) <==>
            h.flashSizeMB <= 16 || (Entered(before, stored, Some(h), out) && h.flashSizeMB <= 4096)
  {}

  // ---------------------------------------------------------------- what a read delivers

  /** A consistent driver fills the buffer with exactly the requested part of the flash,
      unless it uses the dual-line 4-byte command. */
  lemma ReadDelivers(flash: Flash, readCmd: byte, mode4: bool, addr: nat, data: seq<byte>)
    requires Consistent(readCmd, mode4, flash) && readCmd != READ4_DUAL
    requires addr + |data| <= |flash.mem| && addr + |data| <= AddressLimit(mode4)
    requires ChunksRead(flash, readCmd, mode4, addr, data)
    ensures data == flash.mem[addr..addr + |data|]
  {
    hide Answer, Command, Consistent;
    forall i | 0 <= i < |data| ensures data[i] == flash.mem[addr + i] {
      var c := i / READ_LEN;
      var o := c * READ_LEN;
      assert o <= i < o + READ_LEN;
      var n := ChunkSize(|data|, o);
      CommandDecodes(readCmd, mode4, flash, addr + o, LinesSet(readCmd), n);
      ConsistentLines(readCmd, mode4, flash);
      assert ChunkOk(flash, readCmd, mode4, addr, data, c);
      assert data[o..o + n] == Stream(flash, addr + o, n);
      assert data[o..o + n][i - o] == data[i];
    }
  }

  lemma ConsistentLines(readCmd: byte, mode4: bool, flash: Flash)
    requires Consistent(readCmd, mode4, flash) && readCmd != READ4_DUAL
    ensures Lines(readCmd) == LinesSet(readCmd)
  {}

  /** The flash with contents whose every byte alternates its bits. */
  function Striped(flash: Flash, size: nat): (f: Flash)
    ensures |f.mem| == size
  {
    flash.(mem := seq(size, _ => 0xAA))
  }

  /** Every byte heard from the striped flash on one line is all ones. */
  lemma StripedHeard(flash: Flash, size: nat, addr: nat, n: nat)
    requires addr + 2 * n <= size
    ensures HalfHeard(Stream(Striped(flash, size), addr, 2 * n), n) == DualData(n)
  {
    assert OddBits(0xAA) == 15;
    var s := Stream(Striped(flash, size), addr, 2 * n);
    assert forall i :: 0 <= i < 2 * n ==> s[i] == 0xAA;
  }

  lemma StripedAnswer(flash: Flash, size: nat, addr: nat, n: nat)
    requires flash.fourByte && addr < 0x1_0000_0000 && addr + 2 * n <= size
    ensures Answer(Striped(flash, size), Command(READ4_DUAL, true, addr), 1, n) == Some(DualData(n))
  {
    hide Answer, Command, HalfHeard, OddBits;
    CommandDecodes(READ4_DUAL, true, Striped(flash, size), addr, 1, n);
    StripedHeard(flash, size, addr, n);
  }

  /** The dual-line 4-byte command is sent without switching the controller to two lines: on
      the striped flash every byte received is wrong. */
  lemma DualReadFails(flash: Flash, addr: nat, data: seq<byte>)
    requires flash.fourByte && data != [] && addr + |data| <= 0x1_0000_0000
    requires ChunksRead(Striped(flash, addr + 2 * |data|), READ4_DUAL, true, addr, data)
    ensures data[0] != Striped(flash, addr + 2 * |data|).mem[addr]
  {
    var size, n := addr + 2 * |data|, ChunkSize(|data|, 0);
    hide Answer, Command;
    StripedAnswer(flash, size, addr, n);
    assert ChunkOk(Striped(flash, size), READ4_DUAL, true, addr, data, 0);
    assert data[0..n] == DualData(n);
    assert data[0] == DualData(n)[0];
  }

  /** So the read command delivers the flash's contents, whatever they are, exactly when it is
      not the dual-line 4-byte command. */
  lemma ReadDeliversExactly(flash: Flash, readCmd: byte, mode4: bool, addr: nat, len: nat)
    requires Consistent(readCmd, mode4, flash)
    requires 0 < len && addr + len <= AddressLimit(mode4)
    ensures readCmd != READ4_DUAL <==>
      forall mem: seq<byte>, data: seq<byte> |
        |data| == len && addr + 2 * len <= |mem| && ChunksRead(flash.(mem := mem), readCmd, mode4, addr, data) ::
        data == mem[addr..addr + len]
  {
    hide ChunksRead, Answer, Command;
    if readCmd != READ4_DUAL {
      forall mem: seq<byte>, data: seq<byte> |
        |data| == len && addr + 2 * len <= |mem| && ChunksRead(flash.(mem := mem), readCmd, mode4, addr, data)
        ensures data == mem[addr..addr + len]
      {
        ReadDelivers(flash.(mem := mem), readCmd, mode4, addr, data);
      }
    } else {
      var striped := Striped(flash, addr + 2 * len);
      var data := DualData(len);
      DualReadable(flash, addr, len);
      DualReadFails(flash, addr, data);
      assert data != striped.mem[addr..addr + len];
    }
  }

  function DualData(len: nat): (d: seq<byte>)
    ensures |d| == len
  {
    seq(len, _ => 0xFF)
  }

  lemma DualReadable(flash: Flash, addr: nat, len: nat)
    requires flash.fourByte && addr + len <= 0x1_0000_0000
    ensures ChunksRead(Striped(flash, addr + 2 * len), READ4_DUAL, true, addr, DualData(len))
  {
    var striped, data := Striped(flash, addr + 2 * len), DualData(len);
    hide ChunkRead, Striped, DualData;
    forall c: nat ensures ChunkOk(striped, READ4_DUAL, true, addr, data, c) {
      if c * READ_LEN < len {
        DualChunk(flash, addr, len, c * READ_LEN);
      }
    }
  }

  lemma DualChunk(flash: Flash, addr: nat, len: nat, o: nat)
    requires flash.fourByte && addr + len <= 0x1_0000_0000 && o < len
    ensures ChunkRead(Striped(flash, addr + 2 * len), READ4_DUAL, true, addr + o,
        DualData(len)[o..o + ChunkSize(len, o)])
  {
    var n := ChunkSize(len, o);
    assert DualData(len)[o..o + n] == DualData(n);
    hide Answer, Command, DualData;
    StripedAnswer(flash, addr + 2 * len, addr + o, n);
  }

  /** A flash in 4-byte mode does not answer a driver in 3-byte mode. */
  lemma Unanswered(flash: Flash, readCmd: byte, addr: nat, data: seq<byte>)
    requires flash.fourByte && IsRead(readCmd)
    ensures ChunksRead(flash, readCmd, false, addr, data)
  {
    forall c: nat ensures ChunkOk(flash, readCmd, false, addr, data, c) {
      if c * READ_LEN < |data| {
        SilentFlash(flash, readCmd, addr + c * READ_LEN, ChunkSize(|data|, c * READ_LEN));
      }
    }
  }

  lemma SilentFlash(flash: Flash, readCmd: byte, addr: nat, n: nat)
    requires flash.fourByte && IsRead(readCmd)
    ensures Answer(flash, Command(readCmd, false, addr), LinesSet(readCmd), n) == None
  {
    assert |Command(readCmd, false, addr)| == 4 + DummyBytes(readCmd);
  }

  // ---------------------------------------------------------------- from the header to the bytes

  /** Driver and flash agree, and the command is not the dual-line 4-byte one. */
  predicate ReadsRight(before: Flash, stored: byte, header: Option<Header>, out: Outcome) {
    var dual := ChosenCmd(stored, header) == READ_DUAL || ChosenCmd(stored, header) == READ4_DUAL;
    if before.fourByte || (Switches(stored, header) && out.enter && before.hasFourByte)
    then Switches(stored, header) && out.config && !dual
    else true
  }

  /** A start from reset followed by a read fills the buffer with the flash's contents, for
      every header, flash and outcome of the mode switch for which the command is right. */
  method StartAndRead(driver: Driver, stored: byte, header: Option<Header>, out: Outcome,
                      start: nat, sectors: nat, buffer: array<byte>) returns (ret: int)
    requires driver.readCmd == READ_FAST && !driver.mode4
    requires (start + sectors) * 512 <= 0x1_0000_0000 && sectors * 512 <= buffer.Length
    modifies driver, buffer
    ensures ret == if driver.faults == old(driver.faults) then 0 else -1
    ensures buffer[sectors * 512..] == old(buffer[sectors * 512..])
    ensures ret == 0 && ReadsRight(old(driver.flash), stored, header, out)
            && (start + sectors) * 512 <= AddressLimit(Entered(old(driver.flash), stored, header, out))
            && (start + sectors) * 512 <= |old(driver.flash).mem| ==>
              buffer[..sectors * 512] == old(driver.flash).mem[start * 512..(start + sectors) * 512]
  {
    ghost var before := driver.flash;
    ret := driver.Init(stored, header, out);
    if ret == 0 {
      ghost var left;
      ret, left := driver.ReadSectors(start, sectors, buffer);
      RightCommand(before, stored, header, out);
      if ret == 0 && ReadsRight(before, stored, header, out)
         && (start + sectors) * 512 <= AddressLimit(Entered(before, stored, header, out))
         && (start + sectors) * 512 <= |before.mem| {
        ReadDelivers(driver.flash, driver.readCmd, driver.mode4, start * 512, buffer[..sectors * 512]);
      }
    }
  }

  lemma RightCommand(before: Flash, stored: byte, header: Option<Header>, out: Outcome)
    ensures
      var (cmd, mode4) := ResetChoice(before, stored, header, out);
      && mode4 == Entered(before, stored, header, out)
      && (ReadsRight(before, stored, header, out) <==>
          Consistent(cmd, mode4, InitFlash(before, stored, header, out)) && cmd != READ4_DUAL)
  {
    InitConsistentExactly(before, stored, header, out);
  }

  /** And the condition is exact: otherwise some contents are not what is read. */
  lemma StartReadsExactly(four: bool, has4: bool, stored: byte, header: Option<Header>,
        out: Outcome, addr: nat, len: nat)
    requires 0 < len && addr + len <= AddressLimit(Entered(Flash([], four, has4), stored, header, out))
    ensures
      var (cmd, mode4) := ResetChoice(Flash([], four, has4), stored, header, out);
      ReadsRight(Flash([], four, has4), stored, header, out) <==>
      forall mem: seq<byte>, data: seq<byte> |
        |data| == len && addr + 2 * len <= |mem|
        && ChunksRead(InitFlash(Flash(mem, four, has4), stored, header, out), cmd, mode4, addr, data) ::
        data == mem[addr..addr + len]
  {
    var before := Flash([], four, has4);
    var (cmd, mode4) := ResetChoice(before, stored, header, out);
    var after := InitFlash(before, stored, header, out);
    RightCommand(before, stored, header, out);
    InconsistentShape(before, stored, header, out);
    AnyContents(four, has4, stored, header, out);
    hide ChunksRead, InitFlash, ResetChoice, ReadsRight, Consistent;
    if !Consistent(cmd, mode4, after) {
      var mem: seq<byte>, data := seq(addr + 2 * len, _ => 0), DualData(len);
      Unanswered(after.(mem := mem), cmd, addr, data);
      assert data[0] != mem[addr..addr + len][0];
    } else {
      ReadDeliversExactly(after, cmd, mode4, addr, len);
    }
  }

  lemma InconsistentShape(before: Flash, stored: byte, header: Option<Header>, out: Outcome)
    ensures
      var (cmd, mode4) := ResetChoice(before, stored, header, out);
      var after := InitFlash(before, stored, header, out);
      !Consistent(cmd, mode4, after) ==> IsRead(cmd) && !mode4 && after.fourByte
  {}

  /** Initialisation does not depend on the contents. */
  lemma AnyContents(four: bool, has4: bool, stored: byte, header: Option<Header>, out: Outcome)
    ensures forall mem: seq<byte> ::
      InitFlash(Flash(mem, four, has4), stored, header, out)
          == InitFlash(Flash([], four, has4), stored, header, out).(mem := mem)
  {}
}

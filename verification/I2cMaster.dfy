/** The I2C master driver against a controller that may answer anything at any time. */
module I2cMaster {
  import opened Numbers

  const NOK_TOUT: int := 4
  const START_TRANSMIT: nat := 0x08
  const RESTART_TRANSMIT: nat := 0x10
  const ADDRWRITE_ACK: nat := 0x18
  const ADDRREAD_ACK: nat := 0x40
  const DATAWRITE_ACK: nat := 0x28
  const DATAREAD_ACK: nat := 0x50
  const DATAREAD_NACK: nat := 0x58
  const READY: nat := 0xf8

  /** No wait of the driver polls a register more often than this. */
  const POLL_LIMIT: nat := 0x1_0000

  // ---------------------------------------------------------------- the wire

  /** What the master puts on the bus. */
  datatype Event = Start | Send(byte: nat) | Receive(byte: nat, ack: bool) | StopRequest

  function SlaveAddress(chip: nat, rw: nat): nat {
    (chip % 256 * 2 + rw % 2) % 256
  }

  /** Byte `i` of a 32-bit value in memory order. */
  function ByteOf(addr: nat, i: nat): nat {
    if i == 0 then addr % 256 else ByteOf(addr / 256, i - 1)
  }

  /** Index of the first register byte sent. */
  function TopByte(alen: int): nat {
    if alen >= 3 then 2 else if alen <= 1 then 0 else 1
  }

  /** Register bytes a slave with addresses of `alen` bytes takes; the driver knows one to three. */
  function Width(alen: int): (n: nat)
    ensures 1 <= alen <= 3 ==> n == alen
  {
    if alen < 1 then 1 else if alen > 3 then 3 else alen
  }

  /** The register bytes from index `top` down to 0: most significant first. */
  function RegisterBytes(addr: nat, top: nat): (s: seq<Event>)
    ensures |s| == top + 1
  {
    seq(top + 1, i requires 0 <= i <= top => Send(ByteOf(addr, top - i)))
  }

  /** The received bytes; each is acknowledged but the last, and a single byte is
      answered with whatever the controller's ACK bit says. */
  function Receives(bytes: seq<nat>, ack: bool): (s: seq<Event>)
    ensures |s| == |bytes|
  {
    seq(|bytes|, i requires 0 <= i < |bytes| => Receive(bytes[i], if |bytes| == 1 then ack else i < |bytes| - 1))
  }

  function Sends(bytes: seq<nat>): (s: seq<Event>)
    ensures |s| == |bytes|
  {
    seq(|bytes|, i requires 0 <= i < |bytes| => Send(bytes[i]))
  }

  function Preamble(chip: nat, addr: nat, alen: int): seq<Event> {
    [Start, Send(SlaveAddress(chip, 0))] + RegisterBytes(addr, TopByte(alen))
  }

  /** A complete register read, up to the STOP request. */
  function ReadTransfer(chip: nat, addr: nat, alen: int, bytes: seq<nat>, ack: bool): seq<Event> {
    Preamble(chip, addr, alen) + [Start, Send(SlaveAddress(chip, 1))] + Receives(bytes, ack)
  }

  /** A complete register write, up to the STOP request. */
  function WriteTransfer(chip: nat, addr: nat, alen: int, bytes: seq<nat>): seq<Event> {
    Preamble(chip, addr, alen) + Sends(bytes)
  }

  // ---------------------------------------------------------------- what the controller answers

  /** What the driver has seen of the controller since an event: whether the flag came up, the
      status looked at last, and how often it looked. */
  datatype Answer = Answer(flag: bool, status: Option<nat>, polls: nat)

  predicate Fits(a: Answer, status: nat) {
    a.flag && a.status == Some(status)
  }

  /** A run that is to see the given statuses: it succeeds if it has seen them all; otherwise it
      has stopped at the first one that was wrong, or was waited for at least 100 times. */
  ghost predicate Ran(ok: bool, got: seq<Answer>, wanted: seq<nat>) {
    && |got| <= |wanted|
    && (forall i :: 0 <= i < |got| && (ok || i < |got| - 1) ==> Fits(got[i], wanted[i]))
    && (ok ==> |got| == |wanted|)
    && (!ok ==> got != [] && (Fits(got[|got| - 1], wanted[|got| - 1]) ==> got[|got| - 1].polls >= 100))
  }

  lemma RanThen(ok: bool, got: seq<Answer>, wanted: seq<nat>, more: seq<Answer>, next: seq<nat>)
    requires Ran(true, got, wanted) && Ran(ok, more, next)
    ensures Ran(ok, got + more, wanted + next)
  {
    var all, w := got + more, wanted + next;
    forall i | 0 <= i < |all| && (ok || i < |all| - 1) ensures Fits(all[i], w[i]) {
      if i >= |got| {
        assert all[i] == more[i - |got|] && w[i] == next[i - |got|];
      }
    }
    assert more != [] ==> all[|all| - 1] == more[|more| - 1] && w[|all| - 1] == next[|more| - 1];
  }

  lemma RanShort(got: seq<Answer>, wanted: seq<nat>, next: seq<nat>)
    requires Ran(false, got, wanted)
    ensures Ran(false, got, wanted + next)
  {}

  function Repeated(status: nat, n: nat): seq<nat> { seq(n, _ => status) }

  function PreambleStatuses(alen: int): seq<nat> {
    [START_TRANSMIT, ADDRWRITE_ACK] + Repeated(DATAWRITE_ACK, Width(alen))
  }

  function DataStatuses(len: nat): seq<nat>
    requires len > 0
  {
    Repeated(DATAREAD_ACK, len - 1) + [DATAREAD_NACK]
  }

  /** The statuses of an acknowledged register read. */
  function ReadStatuses(alen: int, len: nat): seq<nat>
    requires len > 0
  {
    PreambleStatuses(alen) + [RESTART_TRANSMIT, ADDRREAD_ACK] + DataStatuses(len)
  }

  /** The statuses of an acknowledged register write. */
  function WriteStatuses(alen: int, len: nat): seq<nat> {
    PreambleStatuses(alen) + Repeated(DATAWRITE_ACK, len)
  }

  // ---------------------------------------------------------------- the driver

  datatype Phase = Idle | Addressing | Writing | Reading

  class Twi {
    var data: nat        // data register
    var ack: bool        // acknowledge bit of the control register
    var phase: Phase     // what the controller does when its flag is cleared
    var initialised: bool
    ghost var trace: seq<Event>
    ghost var answers: seq<Answer>   // one for each event
    ghost var polls: nat

    ghost predicate Valid()
      reads this
    {
      |answers| == |trace|
    }

    /** The answer to the last event. */
    ghost function Last(): Answer
      requires answers != []
      reads this
    {
      answers[|answers| - 1]
    }

    /** Any controller: the interrupt flag, the stop bit and the status are up to it. */
    method PollFlag() returns (on: bool)
      requires answers != []
      modifies `polls, `answers
      ensures polls == old(polls) + 1
      ensures answers == old(answers)[|old(answers)| - 1 :=
          Answer(on || old(Last()).flag, old(Last()).status, old(Last()).polls + 1)]
    {
      on := *;
      polls := polls + 1;
      answers := answers[|answers| - 1 := Answer(on || Last().flag, Last().status, Last().polls + 1)];
    }

    method ReadStatus() returns (status: nat)
      requires answers != []
      modifies `polls, `answers
      ensures polls == old(polls) + 1
      ensures answers == old(answers)[|old(answers)| - 1 :=
          Answer(old(Last()).flag, Some(status), old(Last()).polls + 1)]
    {
      status := *;
      polls := polls + 1;
      answers := answers[|answers| - 1 := Answer(Last().flag, Some(status), Last().polls + 1)];
    }

    /** Something is put on the bus, and nothing is known of the controller's answer yet. */
    ghost method Record(e: Event)
      requires Valid()
      modifies `trace, `answers
      ensures Valid() && trace == old(trace) + [e] && answers == old(answers) + [Answer(false, None, 0)]
    {
      trace := trace + [e];
      answers := answers + [Answer(false, None, 0)];
    }

    /** Setting the START bit. */
    method RequestStart()
      requires Valid()
      modifies `phase, `trace, `answers
      ensures Valid() && phase == Addressing
      ensures trace == old(trace) + [Start] && answers == old(answers) + [Answer(false, None, 0)]
    {
      phase := Addressing;
      Record(Start);
    }

    /** Clearing the flag while transmitting sends the data register. */
    method SendData()
      requires Valid() && (phase == Addressing || phase == Writing)
      modifies `phase, `trace, `answers
      ensures Valid() && trace == old(trace) + [Send(data)] && answers == old(answers) + [Answer(false, None, 0)]
      ensures phase == if old(phase) == Addressing && data % 2 == 1 then Reading else Writing
    {
      Record(Send(data));
      phase := if phase == Addressing && data % 2 == 1 then Reading else Writing;
    }

    /** Clearing the flag while receiving takes any byte from the bus. */
    method ReceiveData()
      requires Valid() && phase == Reading
      modifies `data, `trace, `answers
      ensures Valid() && trace == old(trace) + [Receive(data, ack)]
      ensures answers == old(answers) + [Answer(false, None, 0)]
    {
      data := *;
      Record(Receive(data, ack));
    }

    /** `while ((time--) && !flag)` followed by the test `time <= 0`. */
    method WaitFlag() returns (timedOut: bool)
      requires answers != []
      modifies `polls, `answers
      ensures old(polls) <= polls <= old(polls) + 0xffff
      ensures |answers| == |old(answers)| && answers[..|answers| - 1] == old(answers)[..|answers| - 1]
      ensures Last().status == old(Last()).status && Last().polls - old(Last()).polls == polls - old(polls)
      ensures if timedOut then polls == old(polls) + 0xffff else Last().flag
    {
      var time: int := 0xffff;
      while time != 0
        invariant 0 <= time <= 0xffff && polls == old(polls) + (0xffff - time)
        invariant |answers| == |old(answers)| && answers[..|answers| - 1] == old(answers)[..|answers| - 1]
        invariant Last().status == old(Last()).status && Last().polls - old(Last()).polls == polls - old(polls)
      {
        time := time - 1;
        var on := PollFlag();
        if on {
          return time <= 0;
        }
      }
      return true;
    }

    /** `while ((time--) && (status != wanted))` with a given budget, and its test. */
    method WaitStatus(wanted: nat, budget: nat) returns (timedOut: bool)
      requires answers != []
      modifies `polls, `answers
      ensures old(polls) <= polls <= old(polls) + budget
      ensures |answers| == |old(answers)| && answers[..|answers| - 1] == old(answers)[..|answers| - 1]
      ensures Last().flag == old(Last()).flag && Last().polls - old(Last()).polls == polls - old(polls)
      ensures if timedOut then polls == old(polls) + budget else Last().status == Some(wanted)
    {
      var time: int := budget;
      while time != 0
        invariant 0 <= time <= budget && polls == old(polls) + (budget - time)
        invariant |answers| == |old(answers)| && answers[..|answers| - 1] == old(answers)[..|answers| - 1]
        invariant Last().flag == old(Last()).flag && Last().polls - old(Last()).polls == polls - old(polls)
      {
        time := time - 1;
        var status := ReadStatus();
        if status == wanted {
          return time <= 0;
        }
      }
      return true;
    }

    /** The flag, and then one look at the status. */
    method WaitAndLook(wanted: nat) returns (ret: int)
      requires Valid() && wanted > 0 && answers != [] && Last() == Answer(false, None, 0)
      modifies `polls, `answers
      ensures Valid() && answers == old(answers)[..|old(answers)| - 1] + [Last()]
      ensures Ran(ret == 0, [Last()], [wanted]) && (ret == 0 || ret == -NOK_TOUT || ret == 0 - wanted)
      ensures polls <= old(polls) + POLL_LIMIT
    {
      var late := WaitFlag();
      if late {
        return -NOK_TOUT;
      }
      var status := ReadStatus();
      ret := if status != wanted then 0 - wanted else 0;
    }

    /** i2c_sendstart and i2c_sendRestart. */
    method SendStart(wanted: nat) returns (ret: int)
      requires Valid() && wanted > 0
      modifies `phase, `trace, `polls, `answers
      ensures Valid() && phase == Addressing && trace == old(trace) + [Start]
      ensures answers == old(answers) + [Last()] && Ran(ret == 0, [Last()], [wanted])
      ensures ret == 0 || ret == -NOK_TOUT || ret == 0 - wanted
      ensures polls <= old(polls) + POLL_LIMIT
    {
      RequestStart();
      ret := WaitAndLook(wanted);
    }

    /** i2c_sendslaveaddr and i2c_sendbyteaddr. */
    method SendByte(byte: nat, wanted: nat) returns (ret: int)
      requires Valid() && wanted > 0 && (phase == Addressing || phase == Writing)
      modifies `data, `phase, `trace, `polls, `answers
      ensures Valid() && trace == old(trace) + [Send(byte)]
      ensures phase == if old(phase) == Addressing && byte % 2 == 1 then Reading else Writing
      ensures answers == old(answers) + [Last()] && Ran(ret == 0, [Last()], [wanted])
      ensures ret == 0 || ret == -NOK_TOUT || ret == 0 - wanted
      ensures polls <= old(polls) + POLL_LIMIT
    {
      data := byte;
      SendData();
      ret := WaitAndLook(wanted);
    }

    /** The result of i2c_stop is not looked at by its callers. */
    method Stop()
      requires Valid()
      modifies `phase, `trace, `polls, `answers
      ensures Valid() && trace == old(trace) + [StopRequest] && polls <= old(polls) + 2 * POLL_LIMIT
      ensures answers == old(answers) + [Last()]
    {
      phase := Idle;
      Record(StopRequest);
      var late := WaitFlag();
      if late {
        return;
      }
      late := WaitStatus(READY, 0xffff);
      var status := ReadStatus();
    }

    /** Send start, slave address and register address; stops at the first failure. */
    method SendPreamble(chip: nat, addr: nat, alen: int)
      returns (ret: int, ghost done: seq<Event>, ghost got: seq<Answer>)
      requires Valid()
      modifies `data, `phase, `trace, `polls, `answers
      ensures Valid() && trace == old(trace) + done && done <= Preamble(chip, addr, alen)
      ensures answers == old(answers) + got && Ran(ret == 0, got, PreambleStatuses(alen))
      ensures ret <= 0 && (ret == 0 ==> done == Preamble(chip, addr, alen) && phase == Writing)
      ensures polls <= old(polls) + 5 * POLL_LIMIT
    {
      ghost var pre, rest := [START_TRANSMIT, ADDRWRITE_ACK], Repeated(DATAWRITE_ACK, TopByte(alen) + 1);
      assert PreambleStatuses(alen) == pre + rest;
      assert Preamble(chip, addr, alen) == [Start, Send(SlaveAddress(chip, 0))] + RegisterBytes(addr, TopByte(alen));
      hide Ran, Repeated, RegisterBytes, Preamble, PreambleStatuses, SlaveAddress;
      ret, done, got := SendHead(chip);
      if ret != 0 {
        RanShort(got, pre, rest);
        return;
      }
      ghost var part, more;
      ret, part, more := SendRegister(addr, TopByte(alen));
      RanThen(ret == 0, got, pre, more, rest);
      done, got := done + part, got + more;
    }

    /** START and the slave's address. */
    method SendHead(chip: nat) returns (ret: int, ghost done: seq<Event>, ghost got: seq<Answer>)
      requires Valid()
      modifies `data, `phase, `trace, `polls, `answers
      ensures Valid() && trace == old(trace) + done && done <= [Start, Send(SlaveAddress(chip, 0))]
      ensures answers == old(answers) + got && Ran(ret == 0, got, [START_TRANSMIT, ADDRWRITE_ACK])
      ensures ret <= 0 && (ret == 0 ==> |done| == 2 && phase == Writing)
      ensures polls <= old(polls) + 2 * POLL_LIMIT
    {
      hide Ran;
      ret := SendStart(START_TRANSMIT);
      done, got := [Start], [Last()];
      if ret != 0 {
        RanShort(got, [START_TRANSMIT], [ADDRWRITE_ACK]);
        assert [START_TRANSMIT] + [ADDRWRITE_ACK] == [START_TRANSMIT, ADDRWRITE_ACK];
        return;
      }
      ret := SendByte(SlaveAddress(chip, 0), ADDRWRITE_ACK);
      RanThen(ret == 0, got, [START_TRANSMIT], [Last()], [ADDRWRITE_ACK]);
      assert [START_TRANSMIT] + [ADDRWRITE_ACK] == [START_TRANSMIT, ADDRWRITE_ACK];
      done, got := done + [Send(SlaveAddress(chip, 0))], got + [Last()];
    }

    /** The loop over the register bytes. */
    method SendRegister(addr: nat, top: nat) returns (ret: int, ghost done: seq<Event>, ghost got: seq<Answer>)
      requires Valid() && phase == Writing
      modifies `data, `phase, `trace, `polls, `answers
      ensures Valid() && trace == old(trace) + done && done <= RegisterBytes(addr, top)
      ensures answers == old(answers) + got && Ran(ret == 0, got, Repeated(DATAWRITE_ACK, top + 1))
      ensures ret <= 0 && (ret == 0 ==> done == RegisterBytes(addr, top) && phase == Writing)
      ensures polls <= old(polls) + (top + 1) * POLL_LIMIT
    {
      hide Ran, ByteOf, RegisterBytes, Repeated;
      var i: int := top;
      done, got := [], [];
      NothingYet(DATAWRITE_ACK);
      ret := 0;
      while i >= 0
        invariant -1 <= i <= top && phase == Writing && ret == 0 && Valid()
        invariant trace == old(trace) + done && answers == old(answers) + got
        invariant done == RegisterBytes(addr, top)[..top - i]
        invariant Ran(true, got, Repeated(DATAWRITE_ACK, top - i))
        invariant polls <= old(polls) + (top - i) * POLL_LIMIT
      {
        ret, done, got := SendNext(ByteOf(addr, i), old(trace), old(answers), done, got, top - i, top + 1);
        NextRegisterByte(addr, top, top - i);
        i := i - 1;
        if ret != 0 {
          return;
        }
      }
    }

    /** One more register byte. */
    method SendNext(byte: nat, ghost first: seq<Event>, ghost before: seq<Answer>, ghost done: seq<Event>,
                    ghost got: seq<Answer>, ghost n: nat, ghost all: nat)
      returns (ret: int, ghost done': seq<Event>, ghost got': seq<Answer>)
      requires Valid() && phase == Writing && trace == first + done && answers == before + got
      requires n < all && Ran(true, got, Repeated(DATAWRITE_ACK, n))
      modifies `data, `phase, `trace, `polls, `answers
      ensures Valid() && phase == Writing && trace == first + done' && answers == before + got'
      ensures ret <= 0 && done' == done + [Send(byte)]
      ensures Ran(ret == 0, got', Repeated(DATAWRITE_ACK, if ret == 0 then n + 1 else all))
      ensures polls <= old(polls) + POLL_LIMIT
    {
      hide Ran, Repeated;
      ret := SendByte(byte, DATAWRITE_ACK);
      OneMore(ret == 0, got, Last(), DATAWRITE_ACK, n, all);
      done', got' := done + [Send(byte)], got + [Last()];
    }

    /** i2c_getdata.  `bytes` are the bytes seen on the bus. */
    method GetData(buffer: array<nat>, count: nat)
      returns (ret: int, ghost bytes: seq<nat>, ghost done: seq<Event>, ghost got: seq<Answer>)
      requires Valid() && phase == Reading && 0 < count <= buffer.Length
      modifies `data, `ack, `trace, `polls, `answers, buffer
      ensures Valid() && |bytes| == count && trace == old(trace) + done && done <= Receives(bytes, old(ack))
      ensures answers == old(answers) + got && Ran(ret == 0, got, DataStatuses(count))
      ensures ret <= 0
      ensures ret == 0 ==> done == Receives(bytes, old(ack)) && buffer[..count] == bytes
      ensures ret == 0 ==> ack == (old(ack) && count == 1)
      ensures buffer[count..] == old(buffer[count..])
      ensures polls <= old(polls) + 2 * count * POLL_LIMIT
    {
      if count == 1 {
        ret, bytes, done := GetSingle(buffer);
        got := [Last()];
        assert DataStatuses(1) == [DATAREAD_NACK];
        return;
      }
      hide Ran, Receives, Repeated, DataStatuses;
      var late;
      late, bytes, done, got := GetAcknowledged(buffer, count);
      if late {
        RanShort(got, Repeated(DATAREAD_ACK, count - 1), [DATAREAD_NACK]);
        assert Repeated(DATAREAD_ACK, count - 1) + [DATAREAD_NACK] == DataStatuses(count) by { DataSplit(count); }
        return -NOK_TOUT, bytes, done, got;
      }
      ack := false;
      // the delay loop before leaves 100 in the counter
      late := ReceiveInto(buffer, count - 1, DATAREAD_NACK, 100);
      ReceivesUpdate(bytes, count - 1, data, old(ack));
      RanThen(!late, got, Repeated(DATAREAD_ACK, count - 1), [Last()], [DATAREAD_NACK]);
      DataSplit(count);
      bytes, got := bytes[count - 1 := data], got + [Last()];
      done := done + [Receive(data, false)];
      ret := if late then -NOK_TOUT else 0;
    }

    /** The loop over all bytes but the last. */
    method GetAcknowledged(buffer: array<nat>, count: nat)
      returns (late: bool, ghost bytes: seq<nat>, ghost done: seq<Event>, ghost got: seq<Answer>)
      requires Valid() && phase == Reading && 1 < count <= buffer.Length
      modifies `data, `ack, `trace, `polls, `answers, buffer
      ensures Valid() && |bytes| == count && trace == old(trace) + done && done <= Receives(bytes, old(ack))
      ensures answers == old(answers) + got && Ran(!late, got, Repeated(DATAREAD_ACK, count - 1))
      ensures !late ==> done == Receives(bytes, old(ack))[..count - 1] && buffer[..count - 1] == bytes[..count - 1]
      ensures buffer[count..] == old(buffer[count..])
      ensures polls <= old(polls) + 2 * (count - 1) * POLL_LIMIT
    {
      hide Ran, Receives, Repeated;
      bytes, done, got := seq(count, _ => 0), [], [];
      NothingYet(DATAREAD_ACK);
      var i := 0;
      while i < count - 1
        invariant 0 <= i <= count - 1 && |bytes| == count && |done| == i && phase == Reading && Valid()
        invariant trace == old(trace) + done && done == Receives(bytes, old(ack))[..i]
        invariant answers == old(answers) + got && Ran(true, got, Repeated(DATAREAD_ACK, i))
        invariant buffer[..i] == bytes[..i] && buffer[count..] == old(buffer[count..])
        invariant polls <= old(polls) + 2 * i * POLL_LIMIT
      {
        late, done, got := ReceiveNext(buffer, i, old(trace), old(answers), done, got, count - 1);
        ReceivesUpdate(bytes, i, data, old(ack));
        bytes := bytes[i := data];
        if late {
          return;
        }
        i := i + 1;
      }
      late := false;
    }

    /** One more byte that is acknowledged. */
    method ReceiveNext(buffer: array<nat>, i: nat, ghost first: seq<Event>, ghost before: seq<Answer>,
                       ghost done: seq<Event>, ghost got: seq<Answer>, ghost all: nat)
      returns (late: bool, ghost done': seq<Event>, ghost got': seq<Answer>)
      requires Valid() && phase == Reading && i < buffer.Length && trace == first + done && answers == before + got
      requires i < all && Ran(true, got, Repeated(DATAREAD_ACK, i))
      modifies `data, `ack, `trace, `polls, `answers, buffer
      ensures Valid() && trace == first + done' && answers == before + got'
      ensures done' == done + [Receive(data, true)]
      ensures Ran(!late, got', Repeated(DATAREAD_ACK, if late then all else i + 1))
      ensures !late ==> buffer[i] == data
      ensures buffer[..i] == old(buffer[..i]) && buffer[i+1..] == old(buffer[i+1..])
      ensures polls <= old(polls) + 2 * POLL_LIMIT
    {
      hide Ran, Repeated;
      ack := true;
      late := ReceiveInto(buffer, i, DATAREAD_ACK, 0xffff);
      OneMore(!late, got, Last(), DATAREAD_ACK, i, all);
      done', got' := done + [Receive(data, true)], got + [Last()];
    }

    /** One byte: it is taken from the bus, and stored when the flag comes up in time. */
    method ReceiveInto(buffer: array<nat>, i: nat, wanted: nat, budget: nat) returns (late: bool)
      requires Valid() && phase == Reading && i < buffer.Length && 100 <= budget <= 0xffff
      modifies `data, `trace, `polls, `answers, buffer
      ensures Valid() && trace == old(trace) + [Receive(data, ack)]
      ensures answers == old(answers) + [Last()] && Ran(!late, [Last()], [wanted])
      ensures !late ==> buffer[i] == data
      ensures buffer[..i] == old(buffer[..i]) && buffer[i+1..] == old(buffer[i+1..])
      ensures polls <= old(polls) + 2 * POLL_LIMIT
    {
      ReceiveData();
      late := WaitFlag();
      if late {
        return;
      }
      buffer[i] := data;
      late := WaitStatus(wanted, budget);
    }

    method GetSingle(buffer: array<nat>) returns (ret: int, ghost bytes: seq<nat>, ghost done: seq<Event>)
      requires Valid() && phase == Reading && buffer.Length >= 1
      modifies `data, `trace, `polls, `answers, buffer
      ensures Valid() && |bytes| == 1 && trace == old(trace) + done && done == Receives(bytes, ack)
      ensures answers == old(answers) + [Last()] && Ran(ret == 0, [Last()], [DATAREAD_NACK])
      ensures ret <= 0
      ensures ret == 0 ==> buffer[..1] == bytes
      ensures buffer[1..] == old(buffer[1..])
      ensures polls <= old(polls) + POLL_LIMIT
    {
      ReceiveData();
      bytes := [data];
      done := [Receive(data, ack)];
      var late := WaitFlag();
      if late {
        return -NOK_TOUT, bytes, done;
      }
      buffer[0] := data;
      var status := ReadStatus();
      ret := if status != DATAREAD_NACK then 0 - DATAREAD_NACK else 0;
    }

    /** i2c_read.  A failing run is a prefix of the complete transfer, followed by the STOP
        request.  It succeeds only if the controller reported every byte acknowledged, and stops
        at the first answer that is wrong or was waited for too long. */
    method Read(chip: nat, addr: nat, alen: int, buffer: array<nat>, len: nat)
      returns (ret: int, ghost bytes: seq<nat>, ghost done: seq<Event>, ghost got: seq<Answer>)
      requires Valid() && 0 < len <= buffer.Length
      modifies `data, `ack, `phase, `trace, `polls, `answers, buffer
      ensures Valid() && |bytes| == len && ret <= 0 && (!initialised ==> ret == -NOK_TOUT && got == [])
      ensures trace == old(trace) + (if initialised then done + [StopRequest] else [])
      ensures answers == old(answers) + (if initialised then got + [Last()] else [])
      ensures initialised ==> Ran(ret == 0, got, ReadStatuses(alen, len))
      ensures done <= ReadTransfer(chip, addr, alen, bytes, old(ack))
      ensures ret == 0 ==> done == ReadTransfer(chip, addr, alen, bytes, old(ack)) && buffer[..len] == bytes
      ensures ret == 0 ==> ack == (old(ack) && len == 1)
      ensures buffer[len..] == old(buffer[len..])
      ensures polls <= old(polls) + (2 * len + 9) * POLL_LIMIT
    {
      hide Preamble, Receives, Ran, PreambleStatuses, DataStatuses;
      bytes, done, got := seq(len, _ => 0), [], [];
      if !initialised {
        return -NOK_TOUT, bytes, done, got;
      }
      ghost var pre, rest := PreambleStatuses(alen), [RESTART_TRANSMIT, ADDRREAD_ACK] + DataStatuses(len);
      assert ReadStatuses(alen, len) == pre + rest;
      ghost var part, more;
      ret, done, got := SendPreamble(chip, addr, alen);
      if ret == 0 {
        ret, bytes, part, more := ReadBack(chip, buffer, len);
        RanThen(ret == 0, got, pre, more, rest);
        done, got := done + part, got + more;
        assert Preamble(chip, addr, alen) + ([Start, Send(SlaveAddress(chip, 1))] + Receives(bytes, old(ack)))
               == ReadTransfer(chip, addr, alen, bytes, old(ack));
      } else {
        RanShort(got, pre, rest);
      }
      Stop();
    }

    /** From the repeated START on. */
    method ReadBack(chip: nat, buffer: array<nat>, len: nat)
      returns (ret: int, ghost bytes: seq<nat>, ghost done: seq<Event>, ghost got: seq<Answer>)
      requires Valid() && 0 < len <= buffer.Length
      modifies `data, `ack, `phase, `trace, `polls, `answers, buffer
      ensures Valid() && |bytes| == len && ret <= 0 && trace == old(trace) + done && answers == old(answers) + got
      ensures Ran(ret == 0, got, [RESTART_TRANSMIT, ADDRREAD_ACK] + DataStatuses(len))
      ensures done <= [Start, Send(SlaveAddress(chip, 1))] + Receives(bytes, old(ack))
      ensures ret == 0 ==> done == [Start, Send(SlaveAddress(chip, 1))] + Receives(bytes, old(ack))
      ensures ret == 0 ==> buffer[..len] == bytes
      ensures ret == 0 ==> ack == (old(ack) && len == 1)
      ensures buffer[len..] == old(buffer[len..])
      ensures polls <= old(polls) + (2 * len + 2) * POLL_LIMIT
    {
      hide Receives, Ran, DataStatuses, Repeated, SlaveAddress;
      ghost var pre := [RESTART_TRANSMIT, ADDRREAD_ACK];
      bytes := seq(len, _ => 0);
      ret, done, got := SendAgain(chip);
      if ret != 0 {
        RanShort(got, pre, DataStatuses(len));
        return;
      }
      ghost var part, more;
      ret, bytes, part, more := GetData(buffer, len);
      RanThen(ret == 0, got, pre, more, DataStatuses(len));
      done, got := done + part, got + more;
    }

    /** The repeated START, and the slave's address for reading. */
    method SendAgain(chip: nat) returns (ret: int, ghost done: seq<Event>, ghost got: seq<Answer>)
      requires Valid()
      modifies `data, `phase, `trace, `polls, `answers
      ensures Valid() && trace == old(trace) + done && done <= [Start, Send(SlaveAddress(chip, 1))]
      ensures answers == old(answers) + got && Ran(ret == 0, got, [RESTART_TRANSMIT, ADDRREAD_ACK])
      ensures ret <= 0 && (ret == 0 ==> |done| == 2 && phase == Reading)
      ensures polls <= old(polls) + 2 * POLL_LIMIT
    {
      hide Ran;
      ret := SendStart(RESTART_TRANSMIT);
      done, got := [Start], [Last()];
      if ret != 0 {
        RanShort(got, [RESTART_TRANSMIT], [ADDRREAD_ACK]);
        assert [RESTART_TRANSMIT] + [ADDRREAD_ACK] == [RESTART_TRANSMIT, ADDRREAD_ACK];
        return;
      }
      ret := SendByte(SlaveAddress(chip, 1), ADDRREAD_ACK);
      RanThen(ret == 0, got, [RESTART_TRANSMIT], [Last()], [ADDRREAD_ACK]);
      assert [RESTART_TRANSMIT] + [ADDRREAD_ACK] == [RESTART_TRANSMIT, ADDRREAD_ACK];
      done, got := done + [Send(SlaveAddress(chip, 1))], got + [Last()];
    }

    /** i2c_senddata. */
    method SendAll(buffer: seq<nat>) returns (ret: int, ghost done: seq<Event>, ghost got: seq<Answer>)
      requires Valid() && phase == Writing
      modifies `data, `phase, `trace, `polls, `answers
      ensures Valid() && trace == old(trace) + done && done <= Sends(buffer)
      ensures answers == old(answers) + got && Ran(ret == 0, got, Repeated(DATAWRITE_ACK, |buffer|))
      ensures ret <= 0 && (ret == 0 ==> done == Sends(buffer))
      ensures polls <= old(polls) + 2 * |buffer| * POLL_LIMIT
    {
      done, got := [], [];
      var i := 0;
      while i < |buffer|
        invariant 0 <= i <= |buffer| && phase == Writing && Valid()
        invariant trace == old(trace) + done && done == Sends(buffer)[..i]
        invariant answers == old(answers) + got && Ran(true, got, Repeated(DATAWRITE_ACK, i))
        invariant polls <= old(polls) + 2 * i * POLL_LIMIT
      {
        var late := SendOne(buffer[i]);
        OneMore(!late, got, Last(), DATAWRITE_ACK, i, |buffer|);
        done, got := done + [Send(buffer[i])], got + [Last()];
        if late {
          return -NOK_TOUT, done, got;
        }
        i := i + 1;
      }
      ret := 0;
    }

    /** One data byte, and the wait for its acknowledge. */
    method SendOne(byte: nat) returns (late: bool)
      requires Valid() && phase == Writing
      modifies `data, `phase, `trace, `polls, `answers
      ensures Valid() && phase == Writing && trace == old(trace) + [Send(byte)]
      ensures answers == old(answers) + [Last()] && Ran(!late, [Last()], [DATAWRITE_ACK])
      ensures polls <= old(polls) + 2 * POLL_LIMIT
    {
      data := byte;
      SendData();
      late := WaitFlag();
      if late {
        return;
      }
      late := WaitStatus(DATAWRITE_ACK, 0xffff);
    }

    /** i2c_write, with the same guarantees. */
    method Write(chip: nat, addr: nat, alen: int, buffer: seq<nat>)
      returns (ret: int, ghost done: seq<Event>, ghost got: seq<Answer>)
      requires Valid()
      modifies `data, `phase, `trace, `polls, `answers
      ensures Valid() && (ret == 0 || ret == -1 || ret == -NOK_TOUT)
      ensures ret == -NOK_TOUT <==> !initialised
      ensures trace == old(trace) + (if initialised then done + [StopRequest] else [])
      ensures answers == old(answers) + (if initialised then got + [Last()] else [])
      ensures initialised ==> Ran(ret == 0, got, WriteStatuses(alen, |buffer|))
      ensures done <= WriteTransfer(chip, addr, alen, buffer)
      ensures ret == 0 ==> done == WriteTransfer(chip, addr, alen, buffer)
      ensures polls <= old(polls) + (2 * |buffer| + 7) * POLL_LIMIT
    {
      hide Preamble, Sends, Ran, PreambleStatuses;
      done, got := [], [];
      if !initialised {
        return -NOK_TOUT, done, got;
      }
      ghost var pre, rest := PreambleStatuses(alen), Repeated(DATAWRITE_ACK, |buffer|);
      var r;
      ret := -1;
      r, done, got := SendPreamble(chip, addr, alen);
      if r == 0 {
        ghost var part, more;
        r, part, more := SendAll(buffer);
        RanThen(r == 0, got, pre, more, rest);
        done, got := done + part, got + more;
        if r == 0 {
          ret := 0;
        }
      } else {
        RanShort(got, pre, rest);
      }
      Stop();
    }
  }

  lemma NextRegisterByte(addr: nat, top: nat, k: nat)
    requires k <= top
    ensures RegisterBytes(addr, top)[..k+1] == RegisterBytes(addr, top)[..k] + [Send(ByteOf(addr, top - k))]
  {
    hide ByteOf;
  }

  lemma DataSplit(count: nat)
    requires count > 0
    ensures DataStatuses(count) == Repeated(DATAREAD_ACK, count - 1) + [DATAREAD_NACK]
  {}

  lemma NothingYet(status: nat)
    ensures Ran(true, [], Repeated(status, 0))
  {}

  /** One more of the same status. */
  lemma OneMore(ok: bool, got: seq<Answer>, a: Answer, status: nat, n: nat, all: nat)
    requires n < all && Ran(true, got, Repeated(status, n)) && Ran(ok, [a], [status])
    ensures Ran(ok, got + [a], Repeated(status, if ok then n + 1 else all))
  {
    RanThen(ok, got, Repeated(status, n), [a], [status]);
    assert Repeated(status, n) + [status] == Repeated(status, n + 1);
    if !ok {
      RanShort(got + [a], Repeated(status, n + 1), Repeated(status, all - n - 1));
      assert Repeated(status, n + 1) + Repeated(status, all - n - 1) == Repeated(status, all);
    }
  }

  lemma ReceivesUpdate(bytes: seq<nat>, i: nat, b: nat, ack: bool)
    requires i < |bytes| && |bytes| > 1
    ensures Receives(bytes[i := b], ack)[..i] == Receives(bytes, ack)[..i]
    ensures Receives(bytes[i := b], ack)[..i+1] == Receives(bytes, ack)[..i] + [Receive(b, i < |bytes| - 1)]
  {}

  // ---------------------------------------------------------------- what a slave sees

  /** The bytes sent before anything else happens on the bus. */
  function SentFirst(t: seq<Event>): (b: seq<nat>)
    ensures |b| <= |t| && forall i :: 0 <= i < |b| ==> t[i] == Send(b[i])
    ensures |b| < |t| ==> !t[|b|].Send?
  {
    if t == [] || !t[0].Send? then [] else [t[0].byte] + SentFirst(t[1..])
  }

  /** The bytes a slave hands out until the master refuses to acknowledge one. */
  function ReadOut(t: seq<Event>): (b: seq<nat>)
    ensures |b| <= |t| && forall i :: 0 <= i < |b| ==> t[i].Receive? && t[i].byte == b[i]
    ensures forall i :: 0 <= i < |b| - 1 ==> t[i].ack
    ensures |b| < |t| && t[|b|].Receive? ==> b != [] && !t[|b| - 1].ack
  {
    if t == [] || !t[0].Receive? then []
    else if t[0].ack then [t[0].byte] + ReadOut(t[1..])
    else [t[0].byte]
  }

  datatype View =
    | Garbled
    | ReadOf(slave: nat, register: nat, data: seq<nat>)
    | WriteOf(slave: nat, register: nat, data: seq<nat>)

  /** What follows the addressing byte `a` and the bytes sent to it. */
  function AfterSent(a: nat, sent: seq<nat>, rest: seq<Event>, width: nat): View {
    if |sent| < width then Garbled
    else if rest == [StopRequest] then WriteOf(a / 2, BigEndian(sent[..width]), sent[width..])
    else if |sent| == width && |rest| >= 2 && rest[0] == Start && rest[1] == Send(a + 1) then
      var reply := rest[2..];
      var data := ReadOut(reply);
      if data != [] && !reply[|data| - 1].ack && reply[|data|..] == [StopRequest]
      then ReadOf(a / 2, BigEndian(sent), data)
      else Garbled
    else Garbled
  }

  /** The transfer a slave with `width` register bytes recognises. */
  function SlaveView(t: seq<Event>, width: nat): View {
    if |t| < 2 || t[0] != Start || !t[1].Send? || t[1].byte % 2 != 0 then Garbled
    else
      var sent := SentFirst(t[2..]);
      AfterSent(t[1].byte, sent, t[2 + |sent|..], width)
  }

  lemma ViewAfterSent(a: nat, sent: seq<nat>, rest: seq<Event>, width: nat)
    requires a % 2 == 0 && rest != [] && !rest[0].Send?
    ensures SlaveView([Start, Send(a)] + Sends(sent) + rest, width) == AfterSent(a, sent, rest, width)
  {
    hide AfterSent, SentFirst;
    var t := [Start, Send(a)] + Sends(sent) + rest;
    assert t[2..] == Sends(sent) + rest;
    SentFirstIs(t[2..], sent);
    assert t[2 + |sent|..] == rest;
  }

  lemma {:induction false} SentFirstIs(t: seq<Event>, b: seq<nat>)
    requires |b| < |t| && !t[|b|].Send? && forall i :: 0 <= i < |b| ==> t[i] == Send(b[i])
    ensures SentFirst(t) == b
  {
    if b != [] {
      SentFirstIs(t[1..], b[1..]);
    }
  }

  lemma {:induction false} ReadOutIs(t: seq<Event>, b: seq<nat>)
    requires 0 < |b| <= |t| && forall i :: 0 <= i < |b| ==> t[i] == Receive(b[i], i < |b| - 1)
    ensures ReadOut(t) == b
  {
    if |b| > 1 {
      ReadOutIs(t[1..], b[1..]);
    }
  }

  function SentBytes(addr: nat, top: nat): seq<nat> {
    seq(top + 1, i requires 0 <= i <= top => ByteOf(addr, top - i))
  }

  lemma TwoByteSplit(addr: nat)
    ensures addr / 256 % 256 * 256 + addr % 256 == addr % 65536
  {}

  lemma ThreeByteSplit(addr: nat)
    ensures addr / 256 / 256 % 256 * 65536 + addr / 256 % 256 * 256 + addr % 256 == addr % 16777216
  {
    assert addr / 256 / 256 == addr / 65536;
    assert addr % 16777216 == addr / 65536 % 256 * 65536 + addr % 65536;
    TwoByteSplit(addr);
  }

  /** Most significant first: the bytes read as a number are the low bytes of the address. */
  lemma RegisterNumber(addr: nat, top: nat)
    requires top <= 2
    ensures BigEndian(SentBytes(addr, top)) == addr % Power256(top + 1)
  {
    var s := SentBytes(addr, top);
    assert Power256(1) == 256 * Power256(0) && Power256(2) == 256 * Power256(1) && Power256(3) == 256 * Power256(2);
    if top == 0 {
      BigEndianLast([], ByteOf(addr, 0));
      assert s == [] + [ByteOf(addr, 0)];
    } else if top == 1 {
      BigEndianLast([], ByteOf(addr, 1));
      BigEndianLast([] + [ByteOf(addr, 1)], ByteOf(addr, 0));
      assert s == [] + [ByteOf(addr, 1)] + [ByteOf(addr, 0)];
      TwoByteSplit(addr);
    } else {
      BigEndianLast([], ByteOf(addr, 2));
      BigEndianLast([] + [ByteOf(addr, 2)], ByteOf(addr, 1));
      BigEndianLast([] + [ByteOf(addr, 2)] + [ByteOf(addr, 1)], ByteOf(addr, 0));
      assert s == [] + [ByteOf(addr, 2)] + [ByteOf(addr, 1)] + [ByteOf(addr, 0)];
      assert ByteOf(addr, 2) == ByteOf(addr / 256, 1) == ByteOf(addr / 256 / 256, 0);
      ThreeByteSplit(addr);
    }
  }

  /** A complete read is understood by the slave as a read of the right register with the
      bytes handed out, exactly when the ACK bit was clear or several bytes were read:
      a stale ACK bit acknowledges a single byte, and the slave goes on driving the bus. */
  lemma ReadUnderstood(chip: nat, addr: nat, alen: int, bytes: seq<nat>, ack: bool)
    requires chip < 128 && bytes != []
    ensures SlaveView(ReadTransfer(chip, addr, alen, bytes, ack) + [StopRequest], Width(alen))
            == ReadOf(chip, addr % Power256(Width(alen)), bytes)
            <==> |bytes| > 1 || !ack
  {
    var top := TopByte(alen);
    assert top <= 2 && Width(alen) == top + 1;
    hide *;
    var sent := SentBytes(addr, top);
    var reply := Receives(bytes, ack) + [StopRequest];
    RegisterNumber(addr, top);
    ReadInParts(chip, addr, alen, bytes, ack);
    ViewOfRead(chip, sent, reply);
    ReplyHeard(bytes, ack);
  }

  lemma ReadInParts(chip: nat, addr: nat, alen: int, bytes: seq<nat>, ack: bool)
    requires chip < 128
    ensures
      var sent := SentBytes(addr, TopByte(alen));
      var reply := Receives(bytes, ack) + [StopRequest];
      && |sent| == TopByte(alen) + 1
      && ReadTransfer(chip, addr, alen, bytes, ack) + [StopRequest]
         == [Start, Send(chip * 2)] + Sends(sent) + ([Start, Send(chip * 2 + 1)] + reply)
  {
    hide ByteOf, Receives;
    var sent := SentBytes(addr, TopByte(alen));
    assert RegisterBytes(addr, TopByte(alen)) == Sends(sent);
  }

  /** What the slave hands out, and how it ends. */
  lemma ReplyHeard(bytes: seq<nat>, ack: bool)
    requires bytes != []
    ensures
      var reply := Receives(bytes, ack) + [StopRequest];
      && ReadOut(reply) == bytes && reply[|bytes| - 1].Receive? && reply[|bytes|..] == [StopRequest]
      && (reply[|bytes| - 1].ack <==> |bytes| == 1 && ack)
  {
    hide ReadOut;
    var reply := Receives(bytes, ack) + [StopRequest];
    assert reply[|bytes|..] == [StopRequest];
    if |bytes| > 1 || !ack {
      ReadOutIs(reply, bytes);
    } else {
      StaleReadOut(bytes[0]);
      assert reply == [Receive(bytes[0], true), StopRequest] && bytes == [bytes[0]];
    }
  }

  /** The slave's view of a read, reduced to what the reply looks like. */
  lemma ViewOfRead(chip: nat, sent: seq<nat>, reply: seq<Event>)
    requires sent != []
    ensures
      var t := [Start, Send(chip * 2)] + Sends(sent) + ([Start, Send(chip * 2 + 1)] + reply);
      var data := ReadOut(reply);
      SlaveView(t, |sent|) == if data != [] && !reply[|data| - 1].ack && reply[|data|..] == [StopRequest]
                              then ReadOf(chip, BigEndian(sent), data) else Garbled
  {
    hide BigEndian, ReadOut, SlaveView;
    var rest := [Start, Send(chip * 2 + 1)] + reply;
    ViewAfterSent(chip * 2, sent, rest, |sent|);
    assert rest[2..] == reply && rest[0] == Start && rest[1] == Send(chip * 2 + 1);
  }

  lemma StaleReadOut(b: nat)
    ensures ReadOut([Receive(b, true), StopRequest]) == [b]
  {
    assert [Receive(b, true), StopRequest][1..] == [StopRequest];
    assert ReadOut([StopRequest]) == [];
  }

  /** A complete write is understood as a write of the bytes to the right register. */
  lemma WriteUnderstood(chip: nat, addr: nat, alen: int, bytes: seq<nat>)
    requires chip < 128
    ensures SlaveView(WriteTransfer(chip, addr, alen, bytes) + [StopRequest], Width(alen))
            == WriteOf(chip, addr % Power256(Width(alen)), bytes)
  {
    hide BigEndian, Power256, ByteOf, ReadOut, SlaveView;
    var top := TopByte(alen);
    var t := WriteTransfer(chip, addr, alen, bytes) + [StopRequest];
    var sent := SentBytes(addr, top) + bytes;
    assert t == [Start, Send(chip * 2)] + Sends(sent) + [StopRequest];
    ViewAfterSent(chip * 2, sent, [StopRequest], top + 1);
    RegisterNumber(addr, top);
    assert sent[..top+1] == SentBytes(addr, top) && sent[top+1..] == bytes;
  }
}

/** Pin setup: the batched writer caches the four registers of the current pin
    group, and is shown to leave the same register memory as one
    read-modify-write per register and pin. */
module Gpio {
  import opened WordFields

  // ---------------------------------------------------------------- registers

  const BUS_SIZE: nat := 0x1_0000_0000

  datatype Layout = V1 | V2
  {
    function Stride(): nat { if V1? then 0x24 else 0x30 }
    function PullBase(): nat { if V1? then 0x1C else 0x24 }
    function SelectMask(): bv32 { if V1? then 0x7 else 0xF }
  }

  datatype Bank = Pio | RPio
  datatype Kind = Cfg | Pull | Drive | Data

  /** A chip: the register layout and the base address of each controller. */
  datatype Soc = Soc(layout: Layout, pioBase: nat, rPioBase: nat)
  {
    /** Both controllers fit the bus and do not overlap, for every 8-bit port number.
        The bases in the cpu_*.h headers satisfy this. */
    predicate Ok() {
      && pioBase + 256 * layout.Stride() <= BUS_SIZE
      && rPioBase + 256 * layout.Stride() <= BUS_SIZE
      && (pioBase + 256 * layout.Stride() <= rPioBase || rPioBase + 256 * layout.Stride() <= pioBase)
    }
  }

  function BankOf(port: nat): Bank {
    if port < 12 then Pio else RPio
  }

  predicate ValidReg(bank: Bank, kind: Kind, port: nat, index: nat) {
    && (if bank.Pio? then 1 <= port < 256 else 12 <= port < 256)
    && (match kind
        case Cfg => index < 4
        case Pull => index < 2
        case Drive => index < 2
        case Data => index == 0)
  }

  /** Offset of a register inside its port's block. */
  function Offset(layout: Layout, kind: Kind, index: nat): nat {
    match kind
    case Cfg => index * 4
    case Data => 0x10
    case Drive => index * 4 + 0x14
    case Pull => index * 4 + layout.PullBase()
  }

  /** Byte address of a register, as the PIO_REG_* and R_PIO_REG_* macros compute it. */
  function RegAddr(soc: Soc, bank: Bank, kind: Kind, port: nat, index: nat): (a: nat)
    requires soc.Ok() && ValidReg(bank, kind, port, index)
    ensures a < BUS_SIZE
  {
    if bank.Pio? then soc.pioBase + (port - 1) * soc.layout.Stride() + Offset(soc.layout, kind, index)
    else soc.rPioBase + (port - 12) * soc.layout.Stride() + Offset(soc.layout, kind, index)
  }

  lemma OffsetsDistinct(layout: Layout, b1: Bank, k1: Kind, p1: nat, i1: nat, b2: Bank, k2: Kind, p2: nat, i2: nat)
    requires ValidReg(b1, k1, p1, i1) && ValidReg(b2, k2, p2, i2)
    ensures Offset(layout, k1, i1) < layout.Stride()
    ensures Offset(layout, k1, i1) == Offset(layout, k2, i2) ==> k1 == k2 && i1 == i2
  {}

  lemma BlocksDistinct(stride: nat, n1: int, o1: nat, n2: int, o2: nat)
    requires stride == 0x24 || stride == 0x30
    requires o1 < stride && o2 < stride && n1 * stride + o1 == n2 * stride + o2
    ensures n1 == n2 && o1 == o2
  {
    if stride == 0x24 {
      assert n1 == n2;
    } else {
      assert n1 == n2;
    }
  }

  /** No two registers of the two controllers share an address, in either layout. */
  lemma AddressesDistinct(soc: Soc, b1: Bank, k1: Kind, p1: nat, i1: nat, b2: Bank, k2: Kind, p2: nat, i2: nat)
    requires soc.Ok() && ValidReg(b1, k1, p1, i1) && ValidReg(b2, k2, p2, i2)
    requires RegAddr(soc, b1, k1, p1, i1) == RegAddr(soc, b2, k2, p2, i2)
    ensures b1 == b2 && k1 == k2 && p1 == p2 && i1 == i2
  {
    hide Offset;
    OffsetsDistinct(soc.layout, b1, k1, p1, i1, b2, k2, p2, i2);
    OffsetsDistinct(soc.layout, b2, k2, p2, i2, b1, k1, p1, i1);
    BankRange(soc, b1, k1, p1, i1);
    BankRange(soc, b2, k2, p2, i2);
    assert b1 == b2;
    BlocksDistinct(soc.layout.Stride(), if b1.Pio? then p1 - 1 else p1 - 12, Offset(soc.layout, k1, i1),
                   if b2.Pio? then p2 - 1 else p2 - 12, Offset(soc.layout, k2, i2));
  }

  /** Every register of a bank lies in the 256 blocks after the bank's base. */
  lemma BankRange(soc: Soc, bank: Bank, kind: Kind, port: nat, index: nat)
    requires soc.Ok() && ValidReg(bank, kind, port, index)
    ensures var base := if bank.Pio? then soc.pioBase else soc.rPioBase;
      base <= RegAddr(soc, bank, kind, port, index) < base + 256 * soc.layout.Stride()
  {}

  // ---------------------------------------------------------------- entries

  /** One element of the pin list; the four settings are C `char`s, so they
      are negative or not depending on the platform's `char`. */
  datatype Entry = Entry(port: nat, pin: nat, mulSel: int, pull: int, drive: int, data: int)

  predicate EntryOk(e: Entry) { e.port < 256 && e.pin < 32 }

  function RegIndex(kind: Kind, pin: nat): nat {
    match kind
    case Cfg => pin / 8
    case Pull => pin / 16
    case Drive => pin / 16
    case Data => 0
  }

  function FieldShift(kind: Kind, pin: nat): Shift
    requires pin < 32
  {
    match kind
    case Cfg => (pin % 8 * 4) as bv6
    case Pull => (pin % 16 * 2) as bv6
    case Drive => (pin % 16 * 2) as bv6
    case Data => pin as bv6
  }

  function FieldMask(kind: Kind, layout: Layout): bv32 {
    match kind
    case Cfg => layout.SelectMask()
    case Pull => 0x3
    case Drive => 0x3
    case Data => 0x1
  }

  lemma FieldsFit(kind: Kind, layout: Layout, pin: nat)
    requires pin < 32
    ensures FieldOk(FieldMask(kind, layout), FieldShift(kind, pin))
  {
    assert pin % 8 in {0, 1, 2, 3, 4, 5, 6, 7};
    assert pin % 16 in {0, 1, 2, 3, 4, 5, 6, 7, 8, 9, 10, 11, 12, 13, 14, 15};
  }

  lemma BitsRoundTrip(x: nat)
    requires x < 64
    ensures (x as bv6) as int == x
  {}

  lemma BitsInjective(x: nat, y: nat)
    requires x < 64 && y < 64 && x as bv6 == y as bv6
    ensures x == y
  {
    BitsRoundTrip(x);
    BitsRoundTrip(y);
  }

  /** Two pins of one port have the same register and field only if they are the same pin. */
  lemma FieldsDistinct(kind: Kind, p: nat, q: nat)
    requires p < 32 && q < 32
    requires RegIndex(kind, p) == RegIndex(kind, q) && FieldShift(kind, p) == FieldShift(kind, q)
    ensures p == q
  {
    match kind {
      case Cfg => BitsInjective(p % 8 * 4, q % 8 * 4);
      case Data => BitsInjective(p, q);
      case _ => BitsInjective(p % 16 * 2, q % 16 * 2);
    }
  }

  // ---------------------------------------------------------------- read-modify-write

  /** A list entry bound to the four register addresses it acts on.  `select` says
      whether its function-select field is written. */
  datatype Op = Op(e: Entry, select: bool, cfg: nat, pull: nat, drive: nat, data: nat)
  {
    function Addr(kind: Kind): nat {
      match kind case Cfg => cfg case Pull => pull case Drive => drive case Data => data
    }

    predicate Ok() {
      && EntryOk(e)
      && cfg < BUS_SIZE && pull < BUS_SIZE && drive < BUS_SIZE && data < BUS_SIZE
      && cfg != pull && cfg != drive && cfg != data && pull != drive && pull != data && drive != data
    }

    /** Is the field of this kind written at all? */
    predicate Active(kind: Kind) {
      match kind
      case Cfg => select
      case Pull => e.pull >= 0
      case Drive => e.drive >= 0
      case Data => e.mulSel == 1 && e.data >= 0
    }

    /** With `setGpio` false the function select is cleared instead of set. */
    function Value(kind: Kind, setGpio: bool): bv32 {
      match kind
      case Cfg => if setGpio then Low(e.mulSel) else 0
      case Pull => Low(e.pull)
      case Drive => Low(e.drive)
      case Data => Low(e.data)
    }
  }

  type Memory = seq<bv32>

  function ApplyKind(op: Op, kind: Kind, layout: Layout, setGpio: bool, m: Memory): (m': Memory)
    requires op.Ok() && |m| == BUS_SIZE
    ensures |m'| == BUS_SIZE
  {
    if op.Active(kind) then
      var a, shift := op.Addr(kind), FieldShift(kind, op.e.pin);
      m[a := SetField(m[a], FieldMask(kind, layout), shift, op.Value(kind, setGpio))]
    else m
  }

  /** One pin, four independent read-modify-writes. */
  function Apply(op: Op, layout: Layout, setGpio: bool, m: Memory): (m': Memory)
    requires op.Ok() && |m| == BUS_SIZE
    ensures |m'| == BUS_SIZE
  {
    ApplyKind(op, Data, layout, setGpio,
      ApplyKind(op, Drive, layout, setGpio,
        ApplyKind(op, Pull, layout, setGpio,
          ApplyKind(op, Cfg, layout, setGpio, m))))
  }

  ghost predicate OpsOk(ops: seq<Op>) {
    forall op :: op in ops ==> op.Ok()
  }

  /** The reference: the pins one after the other. */
  ghost function Run(ops: seq<Op>, layout: Layout, setGpio: bool, m: Memory): (m': Memory)
    requires OpsOk(ops) && |m| == BUS_SIZE
    ensures |m'| == BUS_SIZE
  {
    if ops == [] then m
    else Apply(ops[|ops| - 1], layout, setGpio, Run(ops[..|ops| - 1], layout, setGpio, m))
  }

  // ---------------------------------------------------------------- which entries, which bank

  /** Number of leading entries without a port. */
  function LeadingEmpty(list: seq<Entry>): (n: nat)
    ensures n <= |list|
    ensures forall j :: 0 <= j < n ==> list[j].port == 0
    ensures n < |list| ==> list[n].port != 0
  {
    if list == [] || list[0].port != 0 then 0 else 1 + LeadingEmpty(list[1..])
  }

  /** Number of entries before the first one without a port. */
  function RunLength(list: seq<Entry>): (n: nat)
    ensures n <= |list|
    ensures forall j :: 0 <= j < n ==> list[j].port != 0
    ensures n < |list| ==> list[n].port == 0
  {
    if list == [] || list[0].port == 0 then 0 else 1 + RunLength(list[1..])
  }

  /** The entries that take effect. */
  function EffectiveRun(list: seq<Entry>): seq<Entry> {
    var tail := list[LeadingEmpty(list)..];
    tail[..RunLength(tail)]
  }

  predicate Listed(run: seq<Entry>) {
    forall j :: 0 <= j < |run| ==> EntryOk(run[j]) && run[j].port != 0
  }

  /** The bank used for the function-select register and for the other three. */
  datatype Route = Route(select: Bank, group: Bank)

  /** The bank the batched writer really uses: the one of the port for the first
      entry, and PIO each time an address is computed again. */
  function RouteAt(run: seq<Entry>, i: nat): (r: Route)
    requires i < |run| && Listed(run)
    ensures r.select.RPio? ==> run[i].port >= 12
    ensures r.group.RPio? ==> run[i].port >= 12
  {
    if i == 0 then Route(BankOf(run[0].port), BankOf(run[0].port))
    else if run[i].pin / 16 != run[i-1].pin / 16 || run[i].port != run[i-1].port then Route(Pio, Pio)
    else if run[i].pin / 8 != run[i-1].pin / 8 then Route(Pio, RouteAt(run, i-1).group)
    else RouteAt(run, i-1)
  }

  /** The four registers of an entry have four different addresses. */
  lemma FourAddresses(soc: Soc, e: Entry, r: Route)
    requires soc.Ok() && EntryOk(e) && e.port != 0
    requires r.select.RPio? ==> e.port >= 12
    requires r.group.RPio? ==> e.port >= 12
    ensures
      var cfg, data := RegAddr(soc, r.select, Cfg, e.port, e.pin / 8), RegAddr(soc, r.group, Data, e.port, 0);
      var pull := RegAddr(soc, r.group, Pull, e.port, e.pin / 16);
      var drive := RegAddr(soc, r.group, Drive, e.port, e.pin / 16);
      cfg != pull && cfg != drive && cfg != data && pull != drive && pull != data && drive != data
  {
    hide RegAddr;
    forall k1: Kind, k2: Kind | k1 != k2
      ensures RegAddr(soc, if k1.Cfg? then r.select else r.group, k1, e.port, RegIndex(k1, e.pin))
           != RegAddr(soc, if k2.Cfg? then r.select else r.group, k2, e.port, RegIndex(k2, e.pin))
    {
      if RegAddr(soc, if k1.Cfg? then r.select else r.group, k1, e.port, RegIndex(k1, e.pin))
         == RegAddr(soc, if k2.Cfg? then r.select else r.group, k2, e.port, RegIndex(k2, e.pin)) {
        AddressesDistinct(soc, if k1.Cfg? then r.select else r.group, k1, e.port, RegIndex(k1, e.pin),
                               if k2.Cfg? then r.select else r.group, k2, e.port, RegIndex(k2, e.pin));
      }
    }
    assert RegIndex(Cfg, e.pin) == e.pin / 8 && RegIndex(Pull, e.pin) == e.pin / 16
        && RegIndex(Drive, e.pin) == e.pin / 16 && RegIndex(Data, e.pin) == 0;
  }

  function Bind(soc: Soc, e: Entry, select: bool, r: Route): (op: Op)
    requires soc.Ok() && EntryOk(e) && e.port != 0
    requires r.select.RPio? ==> e.port >= 12
    requires r.group.RPio? ==> e.port >= 12
    ensures op.Ok()
  {
    FourAddresses(soc, e, r);
    Op(e, select,
      RegAddr(soc, r.select, Cfg, e.port, e.pin / 8),
      RegAddr(soc, r.group, Pull, e.port, e.pin / 16),
      RegAddr(soc, r.group, Drive, e.port, e.pin / 16),
      RegAddr(soc, r.group, Data, e.port, 0))
  }

  /** What the batched writer does for one entry.  The function select of the first
      entry is always written, a later one only if it is not negative. */
  function RoutedOp(soc: Soc, run: seq<Entry>, i: nat): (op: Op)
    requires soc.Ok() && Listed(run) && i < |run|
    ensures op.Ok()
  {
    Bind(soc, run[i], i == 0 || run[i].mulSel >= 0, RouteAt(run, i))
  }

  function RoutedOps(soc: Soc, run: seq<Entry>): (ops: seq<Op>)
    requires soc.Ok() && Listed(run)
    ensures |ops| == |run|
    ensures forall i :: 0 <= i < |run| ==> ops[i] == RoutedOp(soc, run, i)
    ensures OpsOk(ops)
  {
    seq(|run|, i requires 0 <= i < |run| => RoutedOp(soc, run, i))
  }

  // ---------------------------------------------------------------- the write-back cache

  /** The four cached registers, and whether the data register must be written. */
  datatype Cache = Cache(cfgAddr: nat, pullAddr: nat, driveAddr: nat, dataAddr: nat,
                         cfg: bv32, pull: bv32, drive: bv32, data: bv32, dirty: bool)

  predicate Holds(c: Cache, op: Op, m: Memory) {
    && |m| == BUS_SIZE && op.Ok()
    && c.cfgAddr == op.cfg && c.pullAddr == op.pull && c.driveAddr == op.drive && c.dataAddr == op.data
    && (!c.dirty ==> c.data == m[op.data])
  }

  function WriteBack(c: Cache, m: Memory): (m': Memory)
    requires |m| == BUS_SIZE
    requires c.cfgAddr < BUS_SIZE && c.pullAddr < BUS_SIZE && c.driveAddr < BUS_SIZE && c.dataAddr < BUS_SIZE
    ensures |m'| == BUS_SIZE
  {
    var m3 := m[c.cfgAddr := c.cfg][c.pullAddr := c.pull][c.driveAddr := c.drive];
    if c.dirty then m3[c.dataAddr := c.data] else m3
  }

  /** The cached values after one field of an entry has been written to them. */
  function TouchKind(c: Cache, op: Op, kind: Kind, layout: Layout, setGpio: bool): Cache
    requires EntryOk(op.e)
  {
    if !op.Active(kind) then c
    else
      var mask, shift, v := FieldMask(kind, layout), FieldShift(kind, op.e.pin), op.Value(kind, setGpio);
      match kind
      case Cfg => c.(cfg := SetField(c.cfg, mask, shift, v))
      case Pull => c.(pull := SetField(c.pull, mask, shift, v))
      case Drive => c.(drive := SetField(c.drive, mask, shift, v))
      case Data => c.(data := SetField(c.data, mask, shift, v), dirty := true)
  }

  function Touch(c: Cache, op: Op, layout: Layout, setGpio: bool): Cache
    requires EntryOk(op.e)
  {
    TouchKind(TouchKind(TouchKind(TouchKind(c, op, Cfg, layout, setGpio),
      op, Pull, layout, setGpio), op, Drive, layout, setGpio), op, Data, layout, setGpio)
  }

  lemma CacheHitKind(c: Cache, op: Op, kind: Kind, layout: Layout, setGpio: bool, m: Memory)
    requires Holds(c, op, m)
    ensures Holds(TouchKind(c, op, kind, layout, setGpio), op, m)
    ensures ApplyKind(op, kind, layout, setGpio, WriteBack(c, m))
        == WriteBack(TouchKind(c, op, kind, layout, setGpio), m)
  {
    hide SetField;
  }

  /** Working on the cached values is working on the memory they will be written to. */
  lemma CacheHit(c: Cache, op: Op, layout: Layout, setGpio: bool, m: Memory)
    requires Holds(c, op, m)
    ensures Holds(Touch(c, op, layout, setGpio), op, m)
    ensures Apply(op, layout, setGpio, WriteBack(c, m)) == WriteBack(Touch(c, op, layout, setGpio), m)
  {
    hide TouchKind, ApplyKind, WriteBack;
    CacheHitKind(c, op, Cfg, layout, setGpio, m);
    var c1 := TouchKind(c, op, Cfg, layout, setGpio);
    CacheHitKind(c1, op, Pull, layout, setGpio, m);
    var c2 := TouchKind(c1, op, Pull, layout, setGpio);
    CacheHitKind(c2, op, Drive, layout, setGpio, m);
    CacheHitKind(TouchKind(c2, op, Drive, layout, setGpio), op, Data, layout, setGpio, m);
  }

  /** Changing only the function-select register: flush it and load the next one. */
  lemma ReloadSelect(c: Cache, op: Op, next: Op, m: Memory)
    requires Holds(c, op, m) && next.Ok()
    requires next.pull == op.pull && next.drive == op.drive && next.data == op.data
    ensures
      var m' := m[c.cfgAddr := c.cfg];
      var c' := c.(cfgAddr := next.cfg, cfg := m'[next.cfg]);
      Holds(c', next, m') && WriteBack(c', m') == WriteBack(c, m)
  {}

  lemma RunSnoc(ops: seq<Op>, k: nat, layout: Layout, setGpio: bool, m: Memory)
    requires OpsOk(ops) && |m| == BUS_SIZE && k < |ops|
    ensures Run(ops[..k+1], layout, setGpio, m) == Apply(ops[k], layout, setGpio, Run(ops[..k], layout, setGpio, m))
  {
    assert ops[..k+1][..k] == ops[..k];
  }

  // ---------------------------------------------------------------- the batched writer

  class PinController {
    const soc: Soc
    var regs: Memory

    ghost predicate Valid()
      reads this
    {
      soc.Ok() && |regs| == BUS_SIZE
    }

    /** Read the four registers of an entry. */
    method Load(op: Op) returns (c: Cache)
      requires Valid() && op.Ok()
      ensures Holds(c, op, regs) && WriteBack(c, regs) == regs && !c.dirty
    {
      c := Cache(op.cfg, op.pull, op.drive, op.data, regs[op.cfg], regs[op.pull], regs[op.drive], regs[op.data], false);
    }

    /** Write the cached registers; the data register only if it changed.  Leaving it out is
        not seen: all four registers then hold the cached values, all others are as before, and
        a second flush would change nothing. */
    method Flush(c: Cache, ghost op: Op)
      requires Valid() && Holds(c, op, regs)
      modifies `regs
      ensures Valid() && regs == WriteBack(c, old(regs)) == WriteBack(c, regs)
      ensures regs[c.cfgAddr] == c.cfg && regs[c.pullAddr] == c.pull
      ensures regs[c.driveAddr] == c.drive && regs[c.dataAddr] == c.data
      ensures forall a :: 0 <= a < BUS_SIZE && a !in {c.cfgAddr, c.pullAddr, c.driveAddr, c.dataAddr} ==>
                regs[a] == old(regs)[a]
    {
      regs := regs[c.cfgAddr := c.cfg];
      regs := regs[c.pullAddr := c.pull];
      regs := regs[c.driveAddr := c.drive];
      if c.dirty {
        regs := regs[c.dataAddr := c.data];
      }
    }

    /** Bring the registers of the next entry into the cache. */
    method Switch(c: Cache, op: Op, e: Entry, ghost run: seq<Entry>, ghost k: nat) returns (c': Cache, next: Op)
      requires Valid() && Listed(run) && 0 < k < |run|
      requires op == RoutedOp(soc, run, k - 1) && e == run[k] && Holds(c, op, regs)
      modifies `regs
      ensures Valid() && next == RoutedOp(soc, run, k) && Holds(c', next, regs)
      ensures WriteBack(c', regs) == WriteBack(c, old(regs))
    {
      var pre := op.e;
      var select := e.mulSel >= 0;
      if e.pin / 16 != pre.pin / 16 || e.port != pre.port {
        Flush(c, op);
        next := Bind(soc, e, select, Route(Pio, Pio));
        c' := Load(next);
      } else if e.pin / 8 != pre.pin / 8 {
        var cfgAddr := RegAddr(soc, Pio, Cfg, e.port, e.pin / 8);
        next := op.(e := e, select := select, cfg := cfgAddr);
        assert next == RoutedOp(soc, run, k);
        ReloadSelect(c, op, next, regs);
        regs := regs[c.cfgAddr := c.cfg];
        c' := c.(cfgAddr := cfgAddr, cfg := regs[cfgAddr]);
      } else {
        next := op.(e := e, select := select);
        c' := c;
      }
    }

    method BootSetGpio(list: seq<Entry>, setGpio: bool) returns (ret: int)
      requires Valid()
      requires forall e :: e in list ==> EntryOk(e)
      modifies `regs
      ensures Valid() && Listed(EffectiveRun(list))
      ensures ret == if EffectiveRun(list) == [] then -1 else 0
      ensures regs == Run(RoutedOps(soc, EffectiveRun(list)), soc.layout, setGpio, old(regs))
    {
      hide Touch, WriteBack, Apply, RouteAt, Bind;
      ghost var run := EffectiveRun(list);
      ghost var ops := RoutedOps(soc, run);
      var first := 0;
      while first < |list| && list[first].port == 0
        invariant first <= LeadingEmpty(list)
      {
        first := first + 1;
      }
      if first >= |list| {
        return -1;
      }
      assert run == list[first..][..|run|] && run != [];
      var op := First(list[first], run);
      var c := Load(op);
      RunSnoc(ops, 0, soc.layout, setGpio, regs);
      CacheHit(c, op, soc.layout, setGpio, regs);
      c := Touch(c, op, soc.layout, setGpio);

      var i := first + 1;
      while i < |list| && list[i].port != 0
        invariant first < i <= first + |run| && Valid()
        invariant op == ops[i - first - 1] && Holds(c, op, regs)
        invariant WriteBack(c, regs) == Run(ops[..i - first], soc.layout, setGpio, old(regs))
      {
        ghost var k := i - first;
        assert k < |run| && list[i] == run[k];
        c, op := Switch(c, op, list[i], run, k);
        RunSnoc(ops, k, soc.layout, setGpio, old(regs));
        CacheHit(c, op, soc.layout, setGpio, regs);
        c := Touch(c, op, soc.layout, setGpio);
        i := i + 1;
      }
      assert i - first == |run| && ops[..|run|] == ops;
      Flush(c, op);
      return 0;
    }

    /** The addresses of the first entry come from the bank of its own port. */
    method First(e: Entry, ghost run: seq<Entry>) returns (op: Op)
      requires Valid() && Listed(run) && run != [] && e == run[0]
      ensures op == RoutedOp(soc, run, 0)
    {
      op := Bind(soc, e, true, Route(BankOf(e.port), BankOf(e.port)));
    }
  }
}

/** Burning the hardware unique key into one-time fuses, over any number of boots that may
    lose power after any fuse write. */
module KeyProvision {

  const EFUSE_HUK: nat := 0x50
  const EFUSE_WRITE_PROTECT: nat := 0x40
  const HUK_PROTECT: bv32 := 0x200      // 1 << 9
  const KEY_SPACE: nat := 0x200         // byte addresses of the fuse words
  const HUK_BYTES: nat := 24            // 192 bits

  /** Fuse words by byte address; only multiples of four are used. */
  type Fuses = f: seq<bv32> | |f| == KEY_SPACE witness seq(KEY_SPACE, _ => 0)

  function Or(x: bv32, y: bv32): bv32 { x | y }

  /** Every bit of `x` is set in `y`. */
  predicate Inside(x: bv32, y: bv32) { x & !y == 0 }

  predicate HasProtect(x: bv32) { x & HUK_PROTECT != 0 }

  /** Fuses only ever go from 0 to 1. */
  function Burn(f: Fuses, key: nat, value: bv32): Fuses
    requires key < KEY_SPACE
  {
    f[key := Or(f[key], value)]
  }

  /** The fuses and their shadow, which is loaded at power-up and by reading a key. */
  datatype Sid = Sid(fuses: Fuses, shadow: Fuses)

  /** A fuse write followed by the read that reloads its shadow. */
  function BurnAndLoad(s: Sid, key: nat, value: bv32): Sid
    requires key < KEY_SPACE
  {
    var f := Burn(s.fuses, key, value);
    Sid(f, s.shadow[key := f[key]])
  }

  type Random = r: seq<bv32> | |r| == 8 witness seq(8, _ => 0)

  predicate Sealed(f: Fuses) {
    HasProtect(f[EFUSE_WRITE_PROTECT])
  }

  /** The state after the first `n` writes of a provisioning run; writes 0 to 5 burn the key
      words, write 6 the protect bit. */
  function AfterWrites(s: Sid, random: Random, n: nat): Sid
    requires n <= 7
  {
    if n == 0 then s
    else
      var t := AfterWrites(s, random, n - 1);
      if n <= 6 then BurnAndLoad(t, EFUSE_HUK + 4 * (n - 1), random[n - 1])
      else BurnAndLoad(t, EFUSE_WRITE_PROTECT, Or(s.shadow[EFUSE_WRITE_PROTECT], HUK_PROTECT))
  }

  /** The fuses after each of the seven writes of a run, in order. */
  ghost function Passed(s: Sid, random: Random, n: nat): (p: seq<Fuses>)
    requires n <= 7
    ensures |p| == n
  {
    if n == 0 then [] else Passed(s, random, n - 1) + [AfterWrites(s, random, n).fuses]
  }

  lemma {:induction false} PassedAt(s: Sid, random: Random, n: nat, i: nat)
    requires i < n <= 7
    ensures Passed(s, random, n)[i] == AfterWrites(s, random, i + 1).fuses
  {
    hide AfterWrites;
    if i < n - 1 {
      PassedAt(s, random, n - 1, i);
    }
  }

  class SidDevice {
    var state: Sid
    ghost var history: seq<Fuses>   // the fuses after every write

    /** sid_sram_read. */
    method SramRead(key: nat) returns (v: bv32)
      requires key < KEY_SPACE
      ensures v == state.shadow[key]
    {
      v := state.shadow[key];
    }

    /** sid_read_key, which also reloads the shadow of the key. */
    method ReadKey(key: nat) returns (v: bv32)
      requires key < KEY_SPACE
      modifies this
      ensures state == old(state).(shadow := old(state).shadow[key := old(state).fuses[key]]) && v == state.fuses[key]
      ensures history == old(history)
    {
      state := state.(shadow := state.shadow[key := state.fuses[key]]);
      v := state.fuses[key];
    }

    /** sid_program_key.  The fuse word is the least one with the bits it had and those of the
        value: fuses are set, none is cleared, and no other word is touched. */
    method ProgramKey(key: nat, value: bv32)
      requires key < KEY_SPACE
      modifies this
      ensures state == old(state).(fuses := Burn(old(state).fuses, key, value))
      ensures history == old(history) + [state.fuses]
      ensures Grown(old(state).fuses, state.fuses) && Inside(value, state.fuses[key])
      ensures forall w: bv32 :: Inside(old(state).fuses[key], w) && Inside(value, w) ==> Inside(state.fuses[key], w)
      ensures forall k :: 0 <= k < KEY_SPACE && k != key ==> state.fuses[k] == old(state).fuses[k]
    {
      BurnGrows(state.fuses, key, value);
      OrLeast(state.fuses[key], value);
      state := state.(fuses := Burn(state.fuses, key, value));
      history := history + [state.fuses];
    }

    /** Programming a word and reading it back, which loads it into the shadow. */
    method ProgramAndLoad(key: nat, value: bv32)
      requires key < KEY_SPACE
      modifies this
      ensures state == BurnAndLoad(old(state), key, value) && history == old(history) + [state.fuses]
    {
      hide Grown, Inside, Or;
      ProgramKey(key, value);
      var v := ReadKey(key);
    }

    /** sunxi_key_provision; `random` is what the generator left in the buffer.  The writes come
        one by one in their order, so that a power loss after the n-th leaves what a cut run does,
        and the fuses are never sealed over a key that is not wholly written. */
    method Provision(random: Random)
      modifies this
      ensures state == if Sealed(old(state).shadow) then old(state) else AfterWrites(old(state), random, 7)
      ensures history == old(history) + if Sealed(old(state).shadow) then [] else Passed(old(state), random, 7)
      ensures forall i :: |old(history)| <= i < |history| ==>
                PowerUp(history[i]) == Step(old(state), Cut(random, i - |old(history)| + 1))
      ensures Coherent(old(state)) ==> forall i :: |old(history)| <= i < |history| ==>
                (Sealed(history[i]) ==> Written(history[i], random))
    {
      var protect := SramRead(EFUSE_WRITE_PROTECT);
      if HasProtect(protect) {
        return;
      }
      ghost var s := state;
      PassedRight(s, random);
      hide *;
      BurnKey(random);
      ProgramAndLoad(EFUSE_WRITE_PROTECT, Or(protect, HUK_PROTECT));
      LastPassed(s, random);
    }

    /** The loop over the key words. */
    method BurnKey(random: Random)
      modifies this
      ensures state == AfterWrites(old(state), random, 6)
      ensures history == old(history) + Passed(old(state), random, 6)
    {
      ghost var s, first := state, history;
      hide Or, Burn;
      var i := 0;
      while i < HUK_BYTES
        invariant 0 <= i <= HUK_BYTES && i % 4 == 0 && state == AfterWrites(s, random, i / 4)
        invariant history == first + Passed(s, random, i / 4)
      {
        ProgramAndLoad(EFUSE_HUK + i, random[i / 4]);
        i := i + 4;
      }
    }
  }

  lemma LastPassed(s: Sid, random: Random)
    ensures AfterWrites(s, random, 7)
            == BurnAndLoad(AfterWrites(s, random, 6), EFUSE_WRITE_PROTECT,
                           Or(s.shadow[EFUSE_WRITE_PROTECT], HUK_PROTECT))
    ensures Passed(s, random, 7) == Passed(s, random, 6) + [AfterWrites(s, random, 7).fuses]
  {
    hide Or;
  }

  /** Each state passed through is what a cut leaves, and is sealed only over a whole key. */
  lemma PassedRight(s: Sid, random: Random)
    requires !Sealed(s.shadow)
    ensures forall i :: 0 <= i < 7 ==>
              PowerUp(Passed(s, random, 7)[i]) == Step(s, Cut(random, i + 1))
    ensures Coherent(s) ==> forall i :: 0 <= i < 7 ==>
              (Sealed(Passed(s, random, 7)[i]) ==> Written(Passed(s, random, 7)[i], random))
  {
    hide HasProtect, Written, AfterWrites, Passed;
    forall i | 0 <= i < 7 ensures Passed(s, random, 7)[i] == AfterWrites(s, random, i + 1).fuses {
      PassedAt(s, random, 7, i);
    }
    forall i | 0 <= i < 7 && Coherent(s) && Sealed(Passed(s, random, 7)[i])
      ensures Written(Passed(s, random, 7)[i], random)
    {
      LastWriteSeals(s, Cut(random, i + 1));
    }
  }

  // ---------------------------------------------------------------- runs over many boots

  /** A call that returns, a call cut off by a power loss after `n` fuse writes, or a plain
      power cycle. */
  datatype Event = Call(random: Random) | Cut(random: Random, n: nat) | PowerCycle

  function PowerUp(f: Fuses): Sid { Sid(f, f) }

  function Step(s: Sid, e: Event): Sid {
    match e
    case Call(random) => if Sealed(s.shadow) then s else AfterWrites(s, random, 7)
    case Cut(random, n) =>
      if Sealed(s.shadow) then PowerUp(s.fuses)
      else PowerUp(AfterWrites(s, random, if n < 7 then n else 7).fuses)
    case PowerCycle => PowerUp(s.fuses)
  }

  function Run(s: Sid, events: seq<Event>): Sid {
    if events == [] then s else Step(Run(s, events[..|events| - 1]), events[|events| - 1])
  }

  /** Between calls the shadow shows the fuses. */
  ghost predicate Coherent(s: Sid) { s.shadow == s.fuses }

  /** No fuse that was 1 is 0. */
  ghost predicate Grown(f: Fuses, g: Fuses) {
    forall k :: 0 <= k < KEY_SPACE ==> Inside(f[k], g[k])
  }

  lemma OrGrows(x: bv32, y: bv32)
    ensures Inside(x, Or(x, y)) && Inside(y, Or(x, y))
  {}

  lemma InsideTransitive(x: bv32, y: bv32, z: bv32)
    ensures Inside(x, y) && Inside(y, z) ==> Inside(x, z)
    ensures Inside(x, x)
  {}

  lemma OrLeast(x: bv32, y: bv32)
    ensures Inside(y, Or(x, y))
    ensures forall w: bv32 :: Inside(x, w) && Inside(y, w) ==> Inside(Or(x, y), w)
  {
    hide Or, Inside;
    OrGrows(x, y);
    forall w: bv32 | Inside(x, w) && Inside(y, w) ensures Inside(Or(x, y), w) {
      OrBelow(x, y, w);
    }
  }

  lemma OrBelow(x: bv32, y: bv32, w: bv32)
    requires Inside(x, w) && Inside(y, w)
    ensures Inside(Or(x, y), w)
  {
    assert (x | y) & !w == (x & !w) | (y & !w);
  }

  lemma OrExact(x: bv32, r: bv32)
    ensures Or(x, r) == r <==> Inside(x, r)
  {
    OrSplit(x, r);
    if Or(x, r) == r {
      OrGrows(x, r);
    }
  }

  lemma OrSplit(x: bv32, r: bv32)
    ensures x | r == (x & !r) | r
  {}

  lemma ProtectBits(x: bv32)
    ensures HasProtect(Or(x, Or(x, HUK_PROTECT)))
    ensures Or(x, Or(x, HUK_PROTECT)) & !HUK_PROTECT == x & !HUK_PROTECT
  {}

  lemma BurnGrows(f: Fuses, key: nat, value: bv32)
    requires key < KEY_SPACE
    ensures Grown(f, Burn(f, key, value))
  {
    hide Or, Inside;
    forall k | 0 <= k < KEY_SPACE ensures Inside(f[k], Burn(f, key, value)[k]) {
      OrGrows(f[k], value);
      InsideTransitive(f[k], f[k], f[k]);
    }
  }

  lemma GrownTransitive(f: Fuses, g: Fuses, h: Fuses)
    requires Grown(f, g) && Grown(g, h)
    ensures Grown(f, h)
  {
    hide Inside;
    forall k | 0 <= k < KEY_SPACE ensures Inside(f[k], h[k]) {
      InsideTransitive(f[k], g[k], h[k]);
    }
  }

  lemma GrownReflexive(f: Fuses)
    ensures Grown(f, f)
  {
    hide Inside;
    forall k | 0 <= k < KEY_SPACE ensures Inside(f[k], f[k]) {
      InsideTransitive(f[k], f[k], f[k]);
    }
  }

  /** Is this the address of key word `j` for some `j` below `n`? */
  predicate KeyWord(k: nat, n: nat) {
    EFUSE_HUK <= k < EFUSE_HUK + 24 && k % 4 == 0 && (k - EFUSE_HUK) / 4 < n
  }

  /** What the first `n` writes of one run make of word `k`. */
  function WordAfter(f: Fuses, random: Random, n: nat, k: nat): bv32
    requires k < KEY_SPACE
  {
    if KeyWord(k, n) then Or(f[k], random[(k - EFUSE_HUK) / 4])
    else if n == 7 && k == EFUSE_WRITE_PROTECT then Or(f[k], Or(f[k], HUK_PROTECT))
    else f[k]
  }

  lemma {:induction false} WritesExactly(s: Sid, random: Random, n: nat)
    requires n <= 7 && Coherent(s)
    ensures Coherent(AfterWrites(s, random, n))
    ensures forall k :: 0 <= k < KEY_SPACE ==> AfterWrites(s, random, n).fuses[k] == WordAfter(s.fuses, random, n, k)
  {
    hide Or, WordAfter;
    if n == 0 {
      forall k | 0 <= k < KEY_SPACE ensures s.fuses[k] == WordAfter(s.fuses, random, 0, k) {
        WordAfterStep(s.fuses, random, 0, k);
      }
    } else {
      WritesExactly(s, random, n - 1);
      var t := AfterWrites(s, random, n - 1);
      forall k | 0 <= k < KEY_SPACE ensures AfterWrites(s, random, n).fuses[k] == WordAfter(s.fuses, random, n, k) {
        WordAfterStep(s.fuses, random, n, k);
      }
    }
  }

  /** Write `n - 1` changes one word. */
  lemma WordAfterStep(f: Fuses, random: Random, n: nat, k: nat)
    requires n <= 7 && k < KEY_SPACE
    ensures n == 0 ==> WordAfter(f, random, n, k) == f[k]
    ensures 0 < n <= 6 && k == EFUSE_HUK + 4 * (n - 1) ==>
        WordAfter(f, random, n, k) == Or(WordAfter(f, random, n - 1, k), random[n - 1])
    ensures 0 < n <= 6 && k != EFUSE_HUK + 4 * (n - 1) ==> WordAfter(f, random, n, k) == WordAfter(f, random, n - 1, k)
    ensures n == 7 && k == EFUSE_WRITE_PROTECT ==>
        WordAfter(f, random, n, k) == Or(WordAfter(f, random, n - 1, k), Or(f[k], HUK_PROTECT))
    ensures n == 7 && k != EFUSE_WRITE_PROTECT ==> WordAfter(f, random, n, k) == WordAfter(f, random, n - 1, k)
  {
    hide Or;
    if n > 0 && k == EFUSE_HUK + 4 * (n - 1) {
      assert !KeyWord(k, n - 1);
    } else if n > 0 {
      assert KeyWord(k, n) <==> KeyWord(k, n - 1);
    }
  }

  lemma {:induction false} WritesGrow(s: Sid, random: Random, n: nat)
    requires n <= 7
    ensures Grown(s.fuses, AfterWrites(s, random, n).fuses)
  {
    hide Grown, Burn, Or;
    if n == 0 {
      GrownReflexive(s.fuses);
    } else {
      WritesGrow(s, random, n - 1);
      var t := AfterWrites(s, random, n - 1);
      if n <= 6 {
        BurnGrows(t.fuses, EFUSE_HUK + 4 * (n - 1), random[n - 1]);
      } else {
        BurnGrows(t.fuses, EFUSE_WRITE_PROTECT, Or(s.shadow[EFUSE_WRITE_PROTECT], HUK_PROTECT));
      }
      GrownTransitive(s.fuses, t.fuses, AfterWrites(s, random, n).fuses);
    }
  }

  lemma StepFacts(s: Sid, e: Event)
    requires Coherent(s)
    ensures Coherent(Step(s, e)) && Grown(s.fuses, Step(s, e).fuses)
    ensures Sealed(s.fuses) ==> Step(s, e).fuses == s.fuses
  {
    hide Grown, AfterWrites, HasProtect;
    GrownReflexive(s.fuses);
    match e
    case Call(random) =>
      WritesExactly(s, random, 7);
      WritesGrow(s, random, 7);
    case Cut(random, n) =>
      WritesGrow(s, random, if n < 7 then n else 7);
    case PowerCycle =>
  }

  /** Over any run from power-up: the shadow stays true between calls and no fuse is ever unburnt. */
  lemma {:induction false} RunGrows(f: Fuses, events: seq<Event>)
    ensures Coherent(Run(PowerUp(f), events)) && Grown(f, Run(PowerUp(f), events).fuses)
  {
    hide Grown, Step;
    if events == [] {
      GrownReflexive(f);
    } else {
      var front := events[..|events| - 1];
      RunGrows(f, front);
      StepFacts(Run(PowerUp(f), front), events[|events| - 1]);
      GrownTransitive(f, Run(PowerUp(f), front).fuses, Run(PowerUp(f), events).fuses);
    }
  }

  /** Once the protect fuse is burnt, no later call, in the same boot or another, interrupted
      or not, changes any fuse. */
  lemma {:induction false} SealedForever(s: Sid, events: seq<Event>)
    requires Coherent(s) && Sealed(s.fuses)
    ensures Run(s, events).fuses == s.fuses && Coherent(Run(s, events))
  {
    hide Step, HasProtect;
    if events != [] {
      SealedForever(s, events[..|events| - 1]);
      StepFacts(Run(s, events[..|events| - 1]), events[|events| - 1]);
    }
  }

  /** From `f` to `g`: the key words take the first 24 random bytes on top of what was burnt,
      the protect bit is set, the other protect bits and all other words are kept. */
  ghost predicate Provisioned(f: Fuses, random: Random, g: Fuses) {
    && (forall j :: 0 <= j < 6 ==> g[EFUSE_HUK + 4 * j] == Or(f[EFUSE_HUK + 4 * j], random[j]))
    && Sealed(g)
    && g[EFUSE_WRITE_PROTECT] & !HUK_PROTECT == f[EFUSE_WRITE_PROTECT] & !HUK_PROTECT
    && (forall k :: 0 <= k < KEY_SPACE && k != EFUSE_WRITE_PROTECT && !KeyWord(k, 6) ==> g[k] == f[k])
  }

  /** A completed call on unsealed fuses provisions them. */
  lemma CompletedCall(s: Sid, random: Random)
    requires Coherent(s) && !Sealed(s.fuses)
    ensures Provisioned(s.fuses, random, Step(s, Call(random)).fuses)
  {
    hide AfterWrites, HasProtect, Or, WordAfter, KeyWord;
    var t := AfterWrites(s, random, 7);
    WritesExactly(s, random, 7);
    ProtectBits(s.fuses[EFUSE_WRITE_PROTECT]);
    WordsAfterAll(s.fuses, random);
    forall j | 0 <= j < 6 ensures t.fuses[EFUSE_HUK + 4 * j] == Or(s.fuses[EFUSE_HUK + 4 * j], random[j]) {
      assert t.fuses[EFUSE_HUK + 4 * j] == WordAfter(s.fuses, random, 7, EFUSE_HUK + 4 * j);
    }
    assert t.fuses[EFUSE_WRITE_PROTECT] == WordAfter(s.fuses, random, 7, EFUSE_WRITE_PROTECT);
  }

  /** After any call that returned, a second call in the same boot burns nothing. */
  lemma SecondCallIdle(s: Sid, random: Random, again: Random)
    requires Coherent(s)
    ensures Step(Step(s, Call(random)), Call(again)) == Step(s, Call(random))
  {
    hide AfterWrites, HasProtect, Or, KeyWord, WordAfter;
    if !Sealed(s.fuses) {
      CompletedCall(s, random);
      WritesExactly(s, random, 7);
    }
  }

  lemma WordsAfterAll(f: Fuses, random: Random)
    ensures forall j :: 0 <= j < 6 ==> WordAfter(f, random, 7, EFUSE_HUK + 4 * j) == Or(f[EFUSE_HUK + 4 * j], random[j])
    ensures WordAfter(f, random, 7, EFUSE_WRITE_PROTECT)
        == Or(f[EFUSE_WRITE_PROTECT], Or(f[EFUSE_WRITE_PROTECT], HUK_PROTECT))
    ensures forall k :: 0 <= k < KEY_SPACE && k != EFUSE_WRITE_PROTECT && !KeyWord(k, 6) ==>
        WordAfter(f, random, 7, k) == f[k]
  {
    hide Or;
  }

  /** For one generated key, the fuses burnt before must lie inside it. */
  lemma KeyIsRandomFor(s: Sid, random: Random)
    requires Coherent(s) && !Sealed(s.fuses)
    ensures Holds(Step(s, Call(random)).fuses, random)
      <==> (forall j :: 0 <= j < 6 ==> Inside(s.fuses[EFUSE_HUK + 4 * j], random[j]))
  {
    hide Step, Or, Inside, HasProtect;
    CompletedCall(s, random);
    forall j | 0 <= j < 6
      ensures Step(s, Call(random)).fuses[EFUSE_HUK + 4 * j] == random[j] <==>
          Inside(s.fuses[EFUSE_HUK + 4 * j], random[j])
    {
      OrExact(s.fuses[EFUSE_HUK + 4 * j], random[j]);
    }
  }

  /** The key words are exactly the first 24 bytes generated. */
  predicate Holds(f: Fuses, random: Random) {
    forall j :: 0 <= j < 6 ==> f[EFUSE_HUK + 4 * j] == random[j]
  }

  predicate Blank(f: Fuses) {
    forall j :: 0 <= j < 6 ==> f[EFUSE_HUK + 4 * j] == 0
  }

  /** A completed call stores exactly what the generator gives, whatever that is, if and only
      if the key fuses were blank before. */
  lemma KeyIsRandomExactly(s: Sid)
    requires Coherent(s) && !Sealed(s.fuses)
    ensures (forall random: Random :: Holds(Step(s, Call(random)).fuses, random)) <==> Blank(s.fuses)
  {
    hide Step, HasProtect, Inside;
    if Blank(s.fuses) {
      forall random: Random ensures Holds(Step(s, Call(random)).fuses, random) {
        KeyIsRandomFor(s, random);
        BlankInside();
      }
    } else {
      var zeros: Random := seq(8, _ => 0);
      var j :| 0 <= j < 6 && s.fuses[EFUSE_HUK + 4 * j] != 0;
      KeyIsRandomFor(s, zeros);
      InsideZero(s.fuses[EFUSE_HUK + 4 * j]);
      assert zeros[j] == 0;
      assert !Holds(Step(s, Call(zeros)).fuses, zeros);
    }
  }

  lemma BlankInside()
    ensures forall random: bv32 :: Inside(0, random)
  {}

  lemma InsideZero(x: bv32)
    ensures Inside(x, 0) <==> x == 0
  {}

  // ---------------------------------------------------------------- what a whole run burns

  /** How many of its seven writes an event gets to, if the fuses are not sealed. */
  function Reaches(e: Event): nat {
    match e
    case Call(_) => 7
    case Cut(_, n) => if n < 7 then n else 7
    case PowerCycle => 0
  }

  /** Some event reached the protect bit. */
  predicate Finished(events: seq<Event>) {
    exists i :: 0 <= i < |events| && Reaches(events[i]) == 7
  }

  /** The random words burnt into key word `j`, one on top of the other, up to the event that
      seals. */
  function Collected(events: seq<Event>, j: nat): bv32
    requires j < 6
  {
    if events == [] then 0
    else
      var front, last := events[..|events| - 1], events[|events| - 1];
      if !Finished(front) && Reaches(last) > j then Or(Collected(front, j), last.random[j]) else Collected(front, j)
  }

  lemma StepExactly(s: Sid, e: Event, j: nat)
    requires Coherent(s) && j < 6
    ensures Sealed(Step(s, e).fuses) <==> Sealed(s.fuses) || Reaches(e) == 7
    ensures Step(s, e).fuses[EFUSE_HUK + 4 * j]
      == if !Sealed(s.fuses) && Reaches(e) > j then Or(s.fuses[EFUSE_HUK + 4 * j], e.random[j])
          else s.fuses[EFUSE_HUK + 4 * j]
  {
    hide AfterWrites, HasProtect, Or;
    if !e.PowerCycle? {
      WritesExactly(s, e.random, Reaches(e));
      ProtectBits(s.fuses[EFUSE_WRITE_PROTECT]);
      assert !KeyWord(EFUSE_WRITE_PROTECT, Reaches(e));
      assert KeyWord(EFUSE_HUK + 4 * j, Reaches(e)) <==> j < Reaches(e);
    }
  }

  /** Over any run from power-up with unsealed fuses: they are sealed exactly when some event
      reached the last write, and every key word holds what it held before and what was
      collected. */
  lemma {:induction false} RunContents(f: Fuses, events: seq<Event>, j: nat)
    requires !Sealed(f) && j < 6
    ensures Sealed(Run(PowerUp(f), events).fuses) <==> Finished(events)
    ensures Run(PowerUp(f), events).fuses[EFUSE_HUK + 4 * j] == Or(f[EFUSE_HUK + 4 * j], Collected(events, j))
  {
    hide Step, HasProtect, Or;
    OrFacts(f[EFUSE_HUK + 4 * j], 0, 0);
    if events != [] {
      var n := |events| - 1;
      var front, last := events[..n], events[n];
      RunGrows(f, front);
      RunContents(f, front, j);
      StepExactly(Run(PowerUp(f), front), last, j);
      FinishedSnoc(events);
      if Reaches(last) > j {
        OrFacts(f[EFUSE_HUK + 4 * j], Collected(front, j), last.random[j]);
      }
    }
  }

  lemma FinishedSnoc(events: seq<Event>)
    requires events != []
    ensures Finished(events) <==> Finished(events[..|events| - 1]) || Reaches(events[|events| - 1]) == 7
  {
    var n := |events| - 1;
    if Finished(events[..n]) {
      var i :| 0 <= i < n && Reaches(events[..n][i]) == 7;
      assert Reaches(events[i]) == 7;
    }
    if Finished(events) {
      var i :| 0 <= i < |events| && Reaches(events[i]) == 7;
      if i < n {
        assert Reaches(events[..n][i]) == 7;
      }
    }
  }

  lemma OrFacts(x: bv32, y: bv32, z: bv32)
    ensures Or(Or(x, y), z) == Or(x, Or(y, z))
    ensures Or(x, 0) == x && Or(0, x) == x
  {}

  /** On blank key fuses, sealed or not, key word `j` is exactly what was collected. */
  lemma SealedContents(f: Fuses, events: seq<Event>, j: nat)
    requires !Sealed(f) && Blank(f) && j < 6
    ensures Run(PowerUp(f), events).fuses[EFUSE_HUK + 4 * j] == Collected(events, j)
  {
    hide Step, HasProtect, Or;
    RunContents(f, events, j);
    OrFacts(Collected(events, j), 0, 0);
  }

  /** A run that goes wrong: power is lost after the first write of a first try, and the next
      boot's key is not the one it generated. */
  lemma InterruptedMixes(f: Fuses)
    requires !Sealed(f) && Blank(f)
    ensures var zeros, ones := seq(8, _ => 0 as bv32), seq(8, _ => 0xffff_ffff as bv32);
      var g := Run(PowerUp(f), [Cut(ones, 1), Call(zeros)]).fuses;
      Sealed(g) && g[EFUSE_HUK] == 0xffff_ffff && !Holds(g, zeros) && !Holds(g, ones)
  {
    hide Step, HasProtect;
    var zeros, ones := seq(8, _ => 0 as bv32), seq(8, _ => 0xffff_ffff as bv32);
    var cut, both := [Cut(ones, 1)], [Cut(ones, 1), Call(zeros)];
    assert both[..1] == cut && cut[..0] == [];
    assert !Finished([]) && !Finished(cut);
    assert Reaches(both[1]) == 7 && Finished(both);
    SealedContents(f, both, 0);
    SealedContents(f, both, 1);
    RunContents(f, both, 0);
    assert Collected(cut, 0) == 0xffff_ffff && Collected(cut, 1) == 0;
    var g := Run(PowerUp(f), both).fuses;
    assert g[EFUSE_HUK + 4 * 1] == 0 && ones[1] != 0 && g[EFUSE_HUK + 4 * 0] != zeros[0];
    assert !Holds(g, ones) && !Holds(g, zeros);
  }

  /** All six key words contain the words of one generated key. */
  predicate Written(f: Fuses, random: Random) {
    forall j :: 0 <= j < 6 ==> Inside(random[j], f[EFUSE_HUK + 4 * j])
  }

  /** Sealed, and by a call of the run that wrote its whole key. */
  ghost predicate SealedBy(f: Fuses, events: seq<Event>) {
    exists i :: 0 <= i < |events| && !events[i].PowerCycle? && Written(f, events[i].random)
  }

  /** The protect bit is burnt last, so however the power fails, sealed fuses always hold a
      whole generated key. */
  lemma {:induction false} SealedMeansWritten(f: Fuses, events: seq<Event>)
    requires !Sealed(f) && Sealed(Run(PowerUp(f), events).fuses)
    ensures SealedBy(Run(PowerUp(f), events).fuses, events)
  {
    hide Step, HasProtect, Written, Grown;
    if events != [] {
      var n := |events| - 1;
      var front, e := events[..n], events[n];
      var s := Run(PowerUp(f), front);
      RunGrows(f, front);
      if Sealed(s.fuses) {
        SealedMeansWritten(f, front);
        StepFacts(s, e);
        var i :| 0 <= i < |front| && !front[i].PowerCycle? && Written(s.fuses, front[i].random);
        assert events[i] == front[i];
      } else {
        LastWriteSeals(s, e);
        assert events[n] == e;
      }
    }
  }

  lemma LastWriteSeals(s: Sid, e: Event)
    requires Coherent(s) && !Sealed(s.fuses) && Sealed(Step(s, e).fuses)
    ensures !e.PowerCycle? && Written(Step(s, e).fuses, e.random)
  {
    hide AfterWrites, HasProtect, Or, Inside;
    if !e.PowerCycle? {
      var n := if e.Call? || e.n >= 7 then 7 else e.n;
      WritesExactly(s, e.random, n);
      assert !KeyWord(EFUSE_WRITE_PROTECT, n);
      var g := AfterWrites(s, e.random, n).fuses;
      assert n == 7;
      forall j | 0 <= j < 6 ensures Inside(e.random[j], g[EFUSE_HUK + 4 * j]) {
        assert KeyWord(EFUSE_HUK + 4 * j, 7);
        OrGrows(s.fuses[EFUSE_HUK + 4 * j], e.random[j]);
      }
    }
  }
}

/** The DMA channel allocator and its interrupt bookkeeping. */
module DmaChannels {

  type Bits = b: seq<bool> | |b| == 32 witness seq(32, _ => false)

  const CLEAR_BITS: Bits := seq(32, _ => false)

  /** Bit of the package-end interrupt of a channel in its register: DMA_PKG_END_INT << n*4. */
  function PkgEndBit(channel: nat): (b: nat)
    ensures channel < 16 ==> b == channel % 8 * 4 + 1 < 32
  {
    (if channel < 8 then channel else channel - 8) * 4 + 1
  }

  /** Is the package-end interrupt of a channel enabled? */
  predicate Enabled(en0: Bits, en1: Bits, channel: nat)
    requires channel < 16
  {
    if channel < 8 then en0[PkgEndBit(channel)] else en1[PkgEndBit(channel)]
  }

  /** All bits but the package-end bit of channel `h` are the same. */
  predicate BitsKept(a0: Bits, a1: Bits, b0: Bits, b1: Bits, h: nat) {
    && (forall b :: 0 <= b < 32 && (h >= 8 || b != PkgEndBit(h)) ==> a0[b] == b0[b])
    && (forall b :: 0 <= b < 32 && (h < 8 || b != PkgEndBit(h)) ==> a1[b] == b1[b])
  }

  /** How many of the flags are set. */
  function CountIf(flags: seq<bool>): (n: nat)
    ensures n <= |flags|
  {
    if flags == [] then 0 else CountIf(flags[..|flags| - 1]) + if flags[|flags| - 1] then 1 else 0
  }

  function EnabledFlags(en0: Bits, en1: Bits, max: nat): (f: seq<bool>)
    requires max <= 16
    ensures |f| == max
  {
    seq(max, c requires 0 <= c < max => Enabled(en0, en1, c))
  }

  lemma {:induction false} CountUpdate(flags: seq<bool>, i: nat, v: bool)
    requires i < |flags|
    ensures CountIf(flags[i := v]) == CountIf(flags) - (if flags[i] then 1 else 0) + if v then 1 else 0
  {
    var n := |flags| - 1;
    if i < n {
      CountUpdate(flags[..n], i, v);
      assert flags[i := v][..n] == flags[..n][i := v];
    } else {
      assert flags[i := v][..n] == flags[..n];
    }
  }

  lemma {:induction false} CountZero(flags: seq<bool>)
    ensures CountIf(flags) == 0 <==> forall i :: 0 <= i < |flags| ==> !flags[i]
  {
    if flags != [] {
      CountZero(flags[..|flags| - 1]);
    }
  }

  /** Lowest free channel from `i` on, or the number of channels. */
  function LowestFree(used: seq<bool>, i: nat): (r: nat)
    requires i <= |used|
    ensures i <= r <= |used| && (r < |used| ==> !used[r])
    ensures forall c :: i <= c < r ==> used[c]
    decreases |used| - i
  {
    if i == |used| || !used[i] then i else LowestFree(used, i + 1)
  }

  /** One above the highest free channel below `n`, or 0. */
  function HighestFree(used: seq<bool>, n: nat): (r: nat)
    requires n <= |used|
    ensures r <= n && (r > 0 ==> !used[r - 1])
    ensures forall c :: r <= c < n ==> used[c]
  {
    if n == 0 || !used[n - 1] then n else HighestFree(used, n - 1)
  }

  // ---------------------------------------------------------------- the engine

  /** A handle is the number of the channel plus one; 0 is the failed request. */
  class DmaEngine {
    const max: nat
    var initState: int
    var intCount: int
    var used: seq<bool>
    var channelCount: seq<nat>
    var en0: Bits
    var en1: Bits

    ghost predicate Shape()
      reads this
    {
      max <= 16 && |used| == max && |channelCount| == max
    }

    /** A used channel knows its number, an enabled interrupt belongs to a used channel, and the
        counter counts the enabled interrupts. */
    ghost predicate Valid()
      reads this
    {
      && Shape()
      && (forall c :: 0 <= c < max && used[c] ==> channelCount[c] == c)
      && (forall c :: 0 <= c < max && Enabled(en0, en1, c) ==> used[c])
      && intCount == CountIf(EnabledFlags(en0, en1, max))
    }

    /** Before the first initialisation: nothing is known of the registers. */
    constructor (max: nat, en0: Bits, en1: Bits)
      requires max <= 16
      ensures Shape() && this.max == max && initState == -1 && this.en0 == en0 && this.en1 == en1
    {
      this.max, initState, intCount := max, -1, 0;
      used, channelCount := seq(max, _ => false), seq(max, _ => 0);
      this.en0, this.en1 := en0, en1;
    }

    /** sunxi_dma_init.  The first register is cleared twice and the second not at all, so the
        bookkeeping is right afterwards exactly when no channel above 7 was left enabled. */
    method Init()
      requires Shape()
      modifies this
      ensures Shape()
      ensures old(initState) > 0 ==> unchanged(this)
      ensures old(initState) <= 0 ==> initState == 1 && intCount == 0 && en0 == CLEAR_BITS && en1 == old(en1)
      ensures old(initState) <= 0 ==> forall c :: 0 <= c < max ==> !used[c]
      ensures old(initState) <= 0 ==> (Valid() <==> forall c :: 8 <= c < max ==> !Enabled(CLEAR_BITS, old(en1), c))
    {
      if initState > 0 {
        return;
      }
      en0 := CLEAR_BITS;
      en0 := CLEAR_BITS;
      var i := 0;
      used, channelCount := seq(max, _ => false), seq(max, _ => 0);
      while i < max
        invariant 0 <= i <= max && Shape() && en0 == CLEAR_BITS && en1 == old(en1)
        invariant forall c :: 0 <= c < i ==> !used[c]
      {
        used := used[i := false];
        i := i + 1;
      }
      intCount := 0;
      initState := 1;
      CountZero(EnabledFlags(en0, en1, max));
      assert forall c :: 0 <= c < max && c < 8 ==> !Enabled(en0, en1, c);
      assert forall c :: 8 <= c < max ==> (Enabled(en0, en1, c) <==> Enabled(CLEAR_BITS, en1, c));
    }

    /** sunxi_dma_request. */
    method Request() returns (handle: nat)
      requires Valid()
      modifies `used, `channelCount
      ensures Valid()
      ensures handle == if LowestFree(old(used), 0) < max then LowestFree(old(used), 0) + 1 else 0
      ensures used == if handle > 0 then old(used)[handle - 1 := true] else old(used)
    {
      var i := 0;
      while i < max
        invariant 0 <= i <= max && LowestFree(used, 0) == LowestFree(used, i)
      {
        if !used[i] {
          used := used[i := true];
          channelCount := channelCount[i := i];
          return i + 1;
        }
        i := i + 1;
      }
      return 0;
    }

    /** sunxi_dma_request_from_last. */
    method RequestFromLast() returns (handle: nat)
      requires Valid()
      modifies `used, `channelCount
      ensures Valid()
      ensures handle == HighestFree(old(used), max)
      ensures used == if handle > 0 then old(used)[handle - 1 := true] else old(used)
    {
      var i: int := max - 1;
      while i >= 0
        invariant -1 <= i < max && HighestFree(used, max) == HighestFree(used, i + 1)
      {
        if !used[i] {
          used := used[i := true];
          channelCount := channelCount[i := i];
          return i + 1;
        }
        i := i - 1;
      }
      return 0;
    }

    /** sunxi_dma_enable_int. */
    method EnableInt(handle: nat) returns (ret: int)
      requires Valid() && 1 <= handle <= max
      modifies `en0, `en1, `intCount
      ensures Valid()
      ensures ret == if used[handle - 1] then 0 else -1
      ensures forall c :: 0 <= c < max ==>
                Enabled(en0, en1, c) == (Enabled(old(en0), old(en1), c) || (c == handle - 1 && used[c]))
      ensures BitsKept(old(en0), old(en1), en0, en1, handle - 1)
    {
      var h := handle - 1;
      if !used[h] {
        return -1;
      }
      var c := channelCount[h];
      ghost var flags := EnabledFlags(en0, en1, max);
      CountUpdate(flags, h, true);
      if c < 8 {
        if en0[PkgEndBit(c)] {
          assert flags[h := true] == flags;
          return 0;
        }
        en0 := en0[PkgEndBit(c) := true];
      } else {
        if en1[PkgEndBit(c)] {
          assert flags[h := true] == flags;
          return 0;
        }
        en1 := en1[PkgEndBit(c) := true];
      }
      OthersKept(old(en0), old(en1), en0, en1, h, true);
      assert EnabledFlags(en0, en1, max) == flags[h := true];
      intCount := intCount + 1;
      return 0;
    }

    /** sunxi_dma_disable_int.  The guard on the counter never stops a real disable. */
    method DisableInt(handle: nat) returns (ret: int, ghost guarded: bool)
      requires Valid() && 1 <= handle <= max
      modifies `en0, `en1, `intCount
      ensures Valid() && !guarded
      ensures ret == if used[handle - 1] then 0 else -1
      ensures forall c :: 0 <= c < max ==> Enabled(en0, en1, c) == (Enabled(old(en0), old(en1), c) && c != handle - 1)
      ensures BitsKept(old(en0), old(en1), en0, en1, handle - 1)
      ensures intCount <= old(intCount)
    {
      guarded := false;
      var h := handle - 1;
      if !used[h] {
        return -1, false;
      }
      var c := channelCount[h];
      ghost var flags := EnabledFlags(en0, en1, max);
      CountUpdate(flags, h, false);
      if c < 8 {
        if !en0[PkgEndBit(c)] {
          return 0, false;
        }
        en0 := en0[PkgEndBit(c) := false];
      } else {
        if !en1[PkgEndBit(c)] {
          return 0, false;
        }
        en1 := en1[PkgEndBit(c) := false];
      }
      OthersKept(old(en0), old(en1), en0, en1, h, false);
      assert EnabledFlags(en0, en1, max) == flags[h := false];
      if intCount > 0 {
        intCount := intCount - 1;
      } else {
        guarded := true;
      }
      return 0, guarded;
    }

    /** sunxi_dma_release. */
    method Release(handle: nat) returns (ret: int)
      requires Valid() && 1 <= handle <= max
      modifies `en0, `en1, `intCount, `used
      ensures Valid()
      ensures ret == if old(used)[handle - 1] then 0 else -1
      ensures used == old(used)[handle - 1 := false]
      ensures forall c :: 0 <= c < max ==> Enabled(en0, en1, c) == (Enabled(old(en0), old(en1), c) && c != handle - 1)
      ensures BitsKept(old(en0), old(en1), en0, en1, handle - 1)
    {
      if !used[handle - 1] {
        assert used == used[handle - 1 := false];
        return -1;
      }
      ghost var guarded;
      ret, guarded := DisableInt(handle);
      used := used[handle - 1 := false];
      return 0;
    }

    /** sunxi_dma_exit: nothing is left used, enabled or counted. */
    method Exit()
      requires Valid()
      modifies this
      ensures Valid() && initState == old(initState) - 1 && intCount == 0
      ensures forall c :: 0 <= c < max ==> !used[c] && !Enabled(en0, en1, c)
    {
      var i := 0;
      while i < max
        invariant 0 <= i <= max && Valid() && initState == old(initState)
        invariant forall c :: 0 <= c < i ==> !used[c]
      {
        if used[i] {
          var ret, guarded := DisableInt(i + 1);
          used := used[i := false];
        }
        i := i + 1;
      }
      CountZero(EnabledFlags(en0, en1, max));
      assert forall c :: 0 <= c < max ==> !EnabledFlags(en0, en1, max)[c];
      en0 := CLEAR_BITS;
      en0 := CLEAR_BITS;
      CountZero(EnabledFlags(en0, en1, max));
      initState := initState - 1;
    }
  }

  lemma OthersKept(a0: Bits, a1: Bits, b0: Bits, b1: Bits, h: nat, v: bool)
    requires h < 16
    requires h < 8 ==> b0 == a0[PkgEndBit(h) := v] && b1 == a1
    requires h >= 8 ==> b1 == a1[PkgEndBit(h) := v] && b0 == a0
    ensures Enabled(b0, b1, h) == v
    ensures forall c :: 0 <= c < 16 && c != h ==> Enabled(b0, b1, c) == Enabled(a0, a1, c)
  {}

  // ---------------------------------------------------------------- handles over any run

  datatype Call = Take | TakeLast | Give(handle: nat)

  /** Used channels, outstanding grants, and numbers of grants and successful releases. */
  datatype Ledger = Ledger(used: seq<bool>, live: set<nat>, grants: nat, releases: nat)

  /** One allocator call, by the contracts of the methods above; a client may give back any handle. */
  function Step(l: Ledger, call: Call): Ledger {
    match call
    case Take =>
      var c := LowestFree(l.used, 0);
      if c < |l.used| then Ledger(l.used[c := true], l.live + {c + 1}, l.grants + 1, l.releases) else l
    case TakeLast =>
      var h := HighestFree(l.used, |l.used|);
      if h > 0 then Ledger(l.used[h - 1 := true], l.live + {h}, l.grants + 1, l.releases) else l
    case Give(h) =>
      if 1 <= h <= |l.used| && l.used[h - 1]
      then Ledger(l.used[h - 1 := false], l.live - {h}, l.grants, l.releases + 1)
      else l
  }

  function RunCalls(l: Ledger, calls: seq<Call>): Ledger {
    if calls == [] then l else Step(RunCalls(l, calls[..|calls| - 1]), calls[|calls| - 1])
  }

  ghost predicate Balanced(l: Ledger) {
    && (forall h :: h in l.live <==> 1 <= h <= |l.used| && l.used[h - 1])
    && |l.live| == CountIf(l.used)
    && l.grants == CountIf(l.used) + l.releases
  }

  lemma StepBalanced(l: Ledger, call: Call)
    requires Balanced(l)
    ensures Balanced(Step(l, call))
    ensures call.Take? && LowestFree(l.used, 0) < |l.used| ==> LowestFree(l.used, 0) + 1 !in l.live
    ensures call.TakeLast? && HighestFree(l.used, |l.used|) > 0 ==> HighestFree(l.used, |l.used|) !in l.live
  {
    hide CountIf, Balanced;
    match call
    case Take =>
      if LowestFree(l.used, 0) < |l.used| {
        GrantBalanced(l, LowestFree(l.used, 0));
      }
    case TakeLast =>
      if HighestFree(l.used, |l.used|) > 0 {
        GrantBalanced(l, HighestFree(l.used, |l.used|) - 1);
      }
    case Give(h) =>
      if 1 <= h <= |l.used| && l.used[h - 1] {
        ReturnBalanced(l, h - 1);
      }
  }

  lemma GrantBalanced(l: Ledger, c: nat)
    requires Balanced(l) && c < |l.used| && !l.used[c]
    ensures c + 1 !in l.live
    ensures Balanced(Ledger(l.used[c := true], l.live + {c + 1}, l.grants + 1, l.releases))
  {
    hide CountIf;
    CountUpdate(l.used, c, true);
  }

  lemma ReturnBalanced(l: Ledger, c: nat)
    requires Balanced(l) && c < |l.used| && l.used[c]
    ensures Balanced(Ledger(l.used[c := false], l.live - {c + 1}, l.grants, l.releases + 1))
  {
    hide CountIf;
    CountUpdate(l.used, c, false);
    assert c + 1 in l.live;
  }

  lemma {:induction false} AllFree(max: nat)
    ensures CountIf(seq(max, _ => false)) == 0
  {
    CountZero(seq(max, _ => false));
  }

  /** Over any interleaving of calls from a fresh start: the live handles are exactly the used
      channels, a granted handle is never one that is live already, and used channels are grants
      minus successful releases. */
  lemma {:induction false} HandlesBalanced(max: nat, calls: seq<Call>)
    ensures Balanced(RunCalls(Ledger(seq(max, _ => false), {}, 0, 0), calls))
  {
    if calls == [] {
      AllFree(max);
    } else {
      HandlesBalanced(max, calls[..|calls| - 1]);
      StepBalanced(RunCalls(Ledger(seq(max, _ => false), {}, 0, 0), calls[..|calls| - 1]), calls[|calls| - 1]);
    }
  }

  /** A request fails exactly when every channel is used, from either end. */
  lemma RequestFailsExactly(used: seq<bool>)
    ensures LowestFree(used, 0) == |used| <==> CountIf(used) == |used|
    ensures HighestFree(used, |used|) == 0 <==> CountIf(used) == |used|
  {
    AllUsed(used);
  }

  lemma {:induction false} AllUsed(used: seq<bool>)
    ensures CountIf(used) == |used| <==> forall c :: 0 <= c < |used| ==> used[c]
  {
    if used != [] {
      AllUsed(used[..|used| - 1]);
    }
  }
}

/**
 Clock rate changes and the UART divisors that depend on them
 (metal/include/metal/clock.h, metal/src/drivers/sifive_uart0.c).

 A clock keeps two intrusive linked lists of callback nodes. Each UART embeds one node of each
 list; before a rate change its transmitter drains, and after it the divisor is recomputed.
 */
module ClockCallbacks {
  import opened Arith
  import opened Bits

  datatype Function = UartPre | UartPost

  /**
   A node embedded in a UART. The driver fills in `callback` and `priv` with the same two values
   every time it registers the node, so they are constants of the node here; `next` is the link.
   */
  class Callback {
    const callback: Function
    const priv: Uart
    var next: Callback?

    constructor (callback: Function, priv: Uart)
      ensures this.callback == callback && this.priv == priv
    {
      this.callback, this.priv, next := callback, priv, null;
    }
  }

  // ---- the list ----

  function Nth(nodes: seq<Callback>, i: nat): Callback? {
    if i < |nodes| then nodes[i] else null
  }

  /** From `head` the next pointers visit exactly `nodes`, in order, and end in null. */
  ghost predicate IsList(head: Callback?, nodes: seq<Callback>)
    reads nodes
  {
    && head == Nth(nodes, 0)
    && forall i {:trigger nodes[i].next} :: 0 <= i < |nodes| ==> nodes[i].next == Nth(nodes, i + 1)
  }

  /** A list that ends visits no node twice. */
  lemma {:induction false} ListHasNoDuplicates(head: Callback?, nodes: seq<Callback>, i: nat, j: nat)
    requires IsList(head, nodes) && i < j < |nodes|
    ensures nodes[i] != nodes[j]
    decreases |nodes| - j
  {
    assert nodes[i].next == Nth(nodes, i + 1) && nodes[j].next == Nth(nodes, j + 1);
    if j + 1 < |nodes| {
      ListHasNoDuplicates(head, nodes, i + 1, j + 1);
    }
  }

  lemma {:induction false} WalksAgree(head: Callback?, nodes: seq<Callback>, p: nat, ns: seq<Callback>)
    requires p < |nodes| && head == nodes[0] && IsList(head, ns)
    requires forall i :: 0 <= i < p ==> nodes[i].next == nodes[i + 1]
    ensures p < |ns| && ns[p] == nodes[p]
  {
    if p > 0 {
      WalksAgree(head, nodes, p - 1, ns);
      assert ns[p - 1].next == Nth(ns, p);
      assert nodes[p - 1].next == nodes[p - 1 + 1];
    }
  }

  /** A walk that reaches a node pointing to itself never ends. */
  lemma SelfLoopIsNoList(head: Callback?, nodes: seq<Callback>, p: nat, ns: seq<Callback>)
    requires p < |nodes| && head == nodes[0] && nodes[p].next == nodes[p]
    requires forall i :: 0 <= i < p ==> nodes[i].next == nodes[i + 1]
    ensures !IsList(head, ns)
  {
    if IsList(head, ns) {
      WalksAgree(head, nodes, p, ns);
      assert ns[p].next == Nth(ns, p + 1);
      ListHasNoDuplicates(head, ns, p, p + 1);
      assert false;
    }
  }

  /**
   `_metal_clock_append_to_callbacks`. A new node becomes the last one. A node that is already in
   the list is made to point to itself, and the list no longer ends.
   */
  method Append(list: Callback?, cb: Callback, ghost nodes: seq<Callback>) returns (head: Callback)
    requires IsList(list, nodes)
    modifies (set n | n in nodes)`next, cb`next
    ensures cb !in nodes ==> IsList(head, nodes + [cb])
    ensures cb in nodes ==> cb.next == cb && forall ns :: !IsList(head, ns)
  {
    ghost var last := |nodes| - 1;
    if cb in nodes {
      last :| 0 <= last < |nodes| && nodes[last] == cb;
    }
    forall i, j | 0 <= i < j < |nodes| ensures nodes[i] != nodes[j] {
      ListHasNoDuplicates(list, nodes, i, j);
    }
    cb.next := null;
    if list == null {
      return cb;
    }
    ghost var k := 0;
    var current: Callback := list;
    while current.next != null
      invariant 0 <= k <= last && current == nodes[k]
      decreases last - k
    {
      current := current.next;
      k := k + 1;
    }
    current.next := cb;
    if cb in nodes {
      forall ns ensures !IsList(list, ns) {
        SelfLoopIsNoList(list, nodes, last, ns);
      }
    }
    return list;
  }

  // ---- UARTs ----

  /** The divisor register: the C quotient less one, in 32 bits. */
  function DivFor(clockRate: nat, baudRate: nat): nat
    requires baudRate > 0
  {
    (clockRate / baudRate - 1) % 0x1_0000_0000
  }

  /**
   The line runs at clockRate / (DIV + 1), the nearest rate not below the one asked for, exactly
   when the clock is at least as fast as that rate; otherwise the register wraps.
   */
  lemma DivisorMeaning(clockRate: nat, baudRate: nat)
    requires baudRate > 0 && clockRate <= 0xFFFF_FFFF
    ensures var d := DivFor(clockRate, baudRate);
            (d + 1) * baudRate <= clockRate < (d + 2) * baudRate <==> clockRate >= baudRate
    ensures clockRate < baudRate ==> DivFor(clockRate, baudRate) == 0xFFFF_FFFF
  {
    var q := clockRate / baudRate;
    FloorIff(clockRate, baudRate, q);
    FloorIff(clockRate, baudRate, q + 1);
    FloorIff(clockRate, baudRate, 1);
    FloorIff(clockRate, baudRate, 0x1_0000_0000);
    MulMono(1, baudRate, 0x1_0000_0000);
  }

  /** A UART's callback ran while the clock had that rate, or the clock's rate was set. */
  datatype Event = Drained(uart: Uart, rate: nat) | RateSet(rate: nat) | Retuned(uart: Uart, rate: nat)

  /** Each UART drains once, in order, at one rate. */
  ghost function Drains(us: seq<Uart>, rate: nat): seq<Event> {
    seq(|us|, i requires 0 <= i < |us| => Drained(us[i], rate))
  }

  /** Each UART is retuned once, in order, at one rate. */
  ghost function Retunes(us: seq<Uart>, rate: nat): seq<Event> {
    seq(|us|, i requires 0 <= i < |us| => Retuned(us[i], rate))
  }

  /** A transmit and a receive control register. */
  datatype Controls = Controls(tx: nat, rx: nat)

  /** Apart from the two enables and the transmit watermark, every control bit is as before. */
  ghost predicate OthersKept(before: Controls, after: Controls) {
    && (forall i: nat :: (1 <= i < 16 || 19 <= i) ==> Bit(after.tx, i) == Bit(before.tx, i))
    && forall i: nat :: 1 <= i ==> Bit(after.rx, i) == Bit(before.rx, i)
  }

  lemma KeptTwice(a: Controls, b: Controls, c: Controls)
    requires OthersKept(a, b) && OthersKept(b, c)
    ensures OthersKept(a, c)
  {
  }

  ghost predicate AllKept(before: seq<Controls>, after: seq<Controls>) {
    |before| == |after| && forall i :: 0 <= i < |after| ==> OthersKept(before[i], after[i])
  }

  lemma AllKeptTwice(a: seq<Controls>, b: seq<Controls>, c: seq<Controls>)
    requires AllKept(a, b) && AllKept(b, c)
    ensures AllKept(a, c)
  {
    forall i | 0 <= i < |c| ensures OthersKept(a[i], c[i]) {
      KeptTwice(a[i], b[i], c[i]);
    }
  }

  lemma EnablingKeeps(c: Controls)
    ensures OthersKept(c, Controls(Or(c.tx, Mask(0, 1)), Or(c.rx, Mask(0, 1))))
    ensures Bit(Or(c.tx, Mask(0, 1)), 0) && Bit(Or(c.rx, Mask(0, 1)), 0)
  {
    EnableBit(c.tx);
    EnableBit(c.rx);
  }

  /** `|= 1` sets bit 0 and keeps the others. */
  lemma EnableBit(w: nat)
    ensures Bit(Or(w, Mask(0, 1)), 0) && forall i: nat :: i >= 1 ==> Bit(Or(w, Mask(0, 1)), i) == Bit(w, i)
  {
    forall i: nat ensures Bit(Or(w, Mask(0, 1)), i) == (i == 0 || Bit(w, i)) {
      BitOfOr(w, Mask(0, 1), i);
      BitOfMask(0, 1, i);
    }
  }

  lemma WatermarkKeeps(c: Controls)
    ensures OthersKept(c, Controls(WriteField(c.tx, 16, 3, 1), c.rx))
  {
    forall i: nat | i < 16 || 19 <= i ensures Bit(WriteField(c.tx, 16, 3, 1), i) == Bit(c.tx, i) {
      WriteFieldBit(c.tx, 16, 3, 1, i);
    }
  }

  lemma WatermarkWritten(w: nat, low: nat, width: nat)
    requires width > 0
    ensures Field(WriteField(w, low, width, 1), low, width) == 1
  {
    WriteThenRead(w, low, width, 1);
    Pow2Grows(1, width);
    LowFixesIffFits(1, width);
  }

  lemma DrainsNext(us: seq<Uart>, rate: nat, k: nat)
    requires k < |us|
    ensures Drains(us[..k + 1], rate) == Drains(us[..k], rate) + [Drained(us[k], rate)]
  {
  }

  lemma RetunesNext(us: seq<Uart>, rate: nat, k: nat)
    requires k < |us|
    ensures Retunes(us[..k + 1], rate) == Retunes(us[..k], rate) + [Retuned(us[k], rate)]
  {
  }

  class Uart {
    var baudRate: nat
    var div: nat
    var txctrl: nat
    var rxctrl: nat
    const clock: Clock
    var pre: Callback?
    var post: Callback?

    constructor (clock: Clock)
      ensures this.clock == clock && Embedded() && fresh(pre) && fresh(post)
    {
      this.clock := clock;
      baudRate, div, txctrl, rxctrl := 0, 0, 0, 0;
      pre, post := null, null;
      new;
      pre := new Callback(UartPre, this);
      post := new Callback(UartPost, this);
    }

    ghost predicate Embedded()
      reads `pre, `post
    {
      && pre != null && pre.callback == UartPre && pre.priv == this
      && post != null && post.callback == UartPost && post.priv == this
    }

    /** The divisor matches the clock. */
    predicate Tuned()
      reads this, clock`rate
    {
      baudRate > 0 && div == DivFor(clock.rate, baudRate)
    }

    /** The transmit watermark is one. */
    ghost predicate Watermarked()
      reads `txctrl
    {
      Field(txctrl, 16, 3) == 1
    }

    ghost function Now(): Controls
      reads `txctrl, `rxctrl
    {
      Controls(txctrl, rxctrl)
    }

    /** Both directions are enabled. */
    ghost predicate On()
      reads `txctrl, `rxctrl
    {
      Bit(txctrl, 0) && Bit(rxctrl, 0)
    }

    /** Program the divisor from the stored baud rate and enable both directions. */
    method Program()
      requires baudRate > 0
      modifies `div, `txctrl, `rxctrl
      ensures Tuned()
      ensures txctrl == Or(old(txctrl), Mask(0, 1)) && rxctrl == Or(old(rxctrl), Mask(0, 1))
    {
      div := DivFor(clock.rate, baudRate);
      txctrl := Or(txctrl, Mask(0, 1));
      rxctrl := Or(rxctrl, Mask(0, 1));
    }

    /** `set_baud_rate` */
    method SetBaudRate(baud: nat)
      requires baud > 0
      modifies `baudRate, `div, `txctrl, `rxctrl
      ensures baudRate == baud && Tuned()
      ensures txctrl == Or(old(txctrl), Mask(0, 1)) && rxctrl == Or(old(rxctrl), Mask(0, 1))
    {
      baudRate := baud;
      Program();
    }

    /** The post-change callback sets the baud rate to the one already stored. */
    method PostRateChange()
      requires baudRate > 0
      modifies `div, `txctrl, `rxctrl, clock`log
      ensures Tuned() && (old(Watermarked()) ==> Watermarked())
      ensures On() && OthersKept(old(Now()), Now())
      ensures clock.log == old(clock.log) + [Retuned(this, clock.rate)]
    {
      EnablingKeeps(Now());
      SetAndClearKeepOthers(txctrl, 0, 1, 16, 3);
      Program();
      clock.log := clock.log + [Retuned(this, clock.rate)];
    }

    /** The pre-change callback sets the transmit watermark to one; its busy waits are not modelled. */
    method Drain()
      modifies `txctrl, clock`log
      ensures txctrl == WriteField(old(txctrl), 16, 3, 1) && Watermarked() && OthersKept(old(Now()), Now())
      ensures clock.log == old(clock.log) + [Drained(this, clock.rate)]
    {
      WatermarkWritten(txctrl, 16, 3);
      WatermarkKeeps(Now());
      txctrl := AndNot(txctrl, Mask(16, 3));
      txctrl := Or(txctrl, And(Shl(1, 16), Mask(16, 3)));
      clock.log := clock.log + [Drained(this, clock.rate)];
    }

    /** A change of baud rate leaves every registered UART in tune, when the others were. */
    method Retune(baud: nat)
      requires baud > 0 && clock.Valid() && clock.OthersTuned(this)
      modifies `baudRate, `div, `txctrl, `rxctrl
      ensures clock.Valid() && clock.Coherent() && baudRate == baud
      ensures txctrl == Or(old(txctrl), Mask(0, 1)) && rxctrl == Or(old(rxctrl), Mask(0, 1))
    {
      SetBaudRate(baud);
    }

    /** The public initialisation: register both callbacks with the clock, then set the baud rate. */
    method Init(baud: nat)
      requires baud > 0 && clock.Valid() && clock.Coherent() && NoneTwice(clock.uarts)
      requires Embedded() && this !in clock.members
      modifies `baudRate, `div, `txctrl, `rxctrl
      modifies pre`next, post`next
      modifies clock`preHead, clock`postHead, clock`uarts, clock`members
      modifies clock`preNodes, clock`postNodes, clock.preNodes`next, clock.postNodes`next
      ensures clock.Valid() && clock.Coherent() && NoneTwice(clock.uarts)
      ensures clock.uarts == old(clock.uarts) + [this] && baudRate == baud
      ensures txctrl == Or(old(txctrl), Mask(0, 1)) && rxctrl == Or(old(rxctrl), Mask(0, 1))
    {
      clock.Link(this);
      Retune(baud);
    }
  }

  // ---- the clock ----

  ghost function ControlsOf(us: seq<Uart>): seq<Controls>
    reads us
  {
    seq(|us|, i requires 0 <= i < |us| reads us => us[i].Now())
  }

  predicate NoneTwice(us: seq<Uart>) {
    us == [] || (us[|us| - 1] !in us[..|us| - 1] && NoneTwice(us[..|us| - 1]))
  }

  lemma OneMore(us: seq<Uart>, u: Uart)
    requires NoneTwice(us) && u !in us
    ensures NoneTwice(us + [u])
  {
    assert (us + [u])[..|us|] == us;
  }

  class Clock {
    var rate: nat
    var preHead: Callback?
    var postHead: Callback?
    ghost var preNodes: seq<Callback>
    ghost var postNodes: seq<Callback>
    ghost var uarts: seq<Uart>
    ghost var members: set<Uart>
    ghost var log: seq<Event>

    constructor (rate: nat)
      ensures Valid() && Coherent() && this.rate == rate && uarts == [] && log == []
    {
      this.rate, preHead, postHead, preNodes, postNodes, uarts, members, log := rate, null, null, [], [], [], {}, [];
    }

    /** The two lists hold the registered UARTs' nodes, in registration order. */
    ghost predicate Valid()
      reads `preHead, `postHead, `preNodes, `postNodes, `uarts, `members, preNodes, postNodes
    {
      IsList(preHead, preNodes) && IsList(postHead, postNodes) && AllRegistered()
    }

    /** Node i of each list belongs to the i-th registered UART and carries that list's function. */
    ghost predicate AllRegistered()
      reads `preNodes, `postNodes, `uarts, `members
    {
      && |preNodes| == |postNodes| == |uarts|
      && forall i :: 0 <= i < |uarts| ==>
           && uarts[i] in members && uarts[i].clock == this
           && preNodes[i].callback == UartPre && preNodes[i].priv == uarts[i]
           && postNodes[i].callback == UartPost && postNodes[i].priv == uarts[i]
    }

    /** Every registered UART is in tune with the clock. */
    ghost predicate Coherent()
      reads `uarts, uarts, (set u | u in uarts :: u.clock)`rate
    {
      forall i :: 0 <= i < |uarts| ==> uarts[i].Tuned()
    }

    /** Every registered UART has a baud rate. */
    ghost predicate AllHaveBaud()
      reads `uarts, (set u | u in uarts)`baudRate
    {
      forall i :: 0 <= i < |uarts| ==> uarts[i].baudRate > 0
    }

    /** The first k registered UARTs have a watermark of one. */
    ghost predicate WatermarkedTo(k: nat)
      requires k <= |uarts|
      reads `uarts, (set u | u in uarts)`txctrl
    {
      forall i :: 0 <= i < k ==> uarts[i].Watermarked()
    }

    /** The first k registered UARTs have both directions enabled. */
    ghost predicate OnTo(k: nat)
      requires k <= |uarts|
      reads `uarts, (set u | u in uarts)`txctrl, (set u | u in uarts)`rxctrl
    {
      forall i :: 0 <= i < k ==> uarts[i].On()
    }

    /** The first k registered UARTs are in tune. */
    ghost predicate TunedTo(k: nat)
      requires k <= |uarts|
      reads `uarts, uarts, (set u | u in uarts :: u.clock)`rate
    {
      forall i :: 0 <= i < k ==> uarts[i].Tuned()
    }

    /** Every registered UART but one is in tune with the clock. */
    ghost predicate OthersTuned(u: Uart)
      reads `uarts, uarts, (set u | u in uarts :: u.clock)`rate
    {
      forall i :: 0 <= i < |uarts| && uarts[i] != u ==> uarts[i].Tuned()
    }

    /** `metal_clock_register_pre_rate_change_callback` */
    method RegisterPre(cb: Callback)
      requires IsList(preHead, preNodes) && cb !in preNodes
      requires IsList(postHead, postNodes) && forall n :: n in postNodes ==> n !in preNodes && n != cb
      modifies `preHead, `preNodes, preNodes`next, cb`next
      ensures IsList(preHead, preNodes) && preNodes == old(preNodes) + [cb]
      ensures IsList(postHead, postNodes)
    {
      preHead := Append(preHead, cb, preNodes);
      preNodes := preNodes + [cb];
    }

    /** `metal_clock_register_post_rate_change_callback` */
    method RegisterPost(cb: Callback)
      requires IsList(postHead, postNodes) && cb !in postNodes
      requires IsList(preHead, preNodes) && forall n :: n in preNodes ==> n !in postNodes && n != cb
      modifies `postHead, `postNodes, postNodes`next, cb`next
      ensures IsList(postHead, postNodes) && postNodes == old(postNodes) + [cb]
      ensures IsList(preHead, preNodes)
    {
      postHead := Append(postHead, cb, postNodes);
      postNodes := postNodes + [cb];
    }

    /** The nodes of a UART that is not registered are in neither list, and the lists share no node. */
    lemma NotRegistered(u: Uart)
      requires AllRegistered() && u.Embedded() && u !in members
      ensures u.pre !in preNodes + postNodes && u.post !in preNodes + postNodes
      ensures forall n :: n in preNodes ==> n !in postNodes
    {
      forall n | n in preNodes ensures n.callback == UartPre && n.priv in members {
        var i :| 0 <= i < |preNodes| && preNodes[i] == n;
        assert uarts[i] in members;
      }
      forall n | n in postNodes ensures n.callback == UartPost && n.priv in members {
        var i :| 0 <= i < |postNodes| && postNodes[i] == n;
        assert uarts[i] in members;
      }
    }

    /** Both callbacks of a UART are registered. */
    method RegisterBoth(u: Uart)
      requires Valid() && u.Embedded() && u !in members
      modifies `preHead, `postHead, `preNodes, `postNodes
      modifies preNodes`next, postNodes`next, u.pre`next, u.post`next
      ensures IsList(preHead, preNodes) && preNodes == old(preNodes) + [u.pre]
      ensures IsList(postHead, postNodes) && postNodes == old(postNodes) + [u.post]
    {
      NotRegistered(u);
      RegisterPre(u.pre);
      RegisterPost(u.post);
    }

    /** A UART joins the clock. */
    method Link(u: Uart)
      requires Valid() && u.clock == this && u.Embedded() && u !in members && NoneTwice(uarts)
      modifies `preHead, `postHead, `preNodes, `postNodes, `uarts, `members
      modifies preNodes`next, postNodes`next, u.pre`next, u.post`next
      ensures Valid() && uarts == old(uarts) + [u] && NoneTwice(uarts)
    {
      OneMore(uarts, u);
      RegisterBoth(u);
      uarts, members := uarts + [u], members + {u};
    }

    /** The node's callback drains the k-th UART. */
    method DrainNth(ghost k: nat, node: Callback)
      requires Valid() && k < |uarts| && node == preNodes[k] && WatermarkedTo(k)
      modifies `log, node.priv`txctrl
      ensures log == old(log) + [Drained(uarts[k], rate)]
      ensures WatermarkedTo(k + 1) && AllKept(old(ControlsOf(uarts)), ControlsOf(uarts))
    {
      node.priv.Drain();
    }

    /** The node's callback retunes the k-th UART. */
    method RetuneNth(ghost k: nat, node: Callback)
      requires Valid() && k < |uarts| && node == postNodes[k] && AllHaveBaud()
      requires TunedTo(k) && OnTo(k) && WatermarkedTo(|uarts|)
      modifies `log, node.priv`div, node.priv`txctrl, node.priv`rxctrl
      ensures log == old(log) + [Retuned(uarts[k], rate)]
      ensures TunedTo(k + 1) && OnTo(k + 1) && WatermarkedTo(|uarts|)
      ensures AllKept(old(ControlsOf(uarts)), ControlsOf(uarts))
    {
      node.priv.PostRateChange();
    }

    /** `_metal_clock_call_all_callbacks` on the pre-change list: each UART drains once, in order. */
    method CallPre()
      requires Valid()
      modifies `log, members`txctrl
      ensures log == old(log) + Drains(uarts, rate)
      ensures Valid() && WatermarkedTo(|uarts|) && AllKept(old(ControlsOf(uarts)), ControlsOf(uarts))
    {
      var current := preHead;
      ghost var k, before := 0, ControlsOf(uarts);
      while current != null
        invariant k <= |uarts| && current == Nth(preNodes, k)
        invariant log == old(log) + Drains(uarts[..k], rate)
        invariant WatermarkedTo(k) && AllKept(before, ControlsOf(uarts))
        decreases |uarts| - k
      {
        ghost var mid := ControlsOf(uarts);
        DrainNth(k, current);
        AllKeptTwice(before, mid, ControlsOf(uarts));
        DrainsNext(uarts, rate, k);
        current := current.next;
        k := k + 1;
      }
      assert uarts[..k] == uarts;
    }

    /** `_metal_clock_call_all_callbacks` on the post-change list: each UART is retuned once, in order. */
    method CallPost()
      requires Valid() && AllHaveBaud() && WatermarkedTo(|uarts|)
      modifies `log, members`div, members`txctrl, members`rxctrl
      ensures log == old(log) + Retunes(uarts, rate)
      ensures Valid() && Coherent() && OnTo(|uarts|) && WatermarkedTo(|uarts|)
      ensures AllKept(old(ControlsOf(uarts)), ControlsOf(uarts))
    {
      var current := postHead;
      ghost var k, before := 0, ControlsOf(uarts);
      while current != null
        invariant k <= |uarts| && current == Nth(postNodes, k)
        invariant log == old(log) + Retunes(uarts[..k], rate)
        invariant TunedTo(k) && OnTo(k) && WatermarkedTo(|uarts|) && AllKept(before, ControlsOf(uarts))
        decreases |uarts| - k
      {
        ghost var mid := ControlsOf(uarts);
        RetuneNth(k, current);
        AllKeptTwice(before, mid, ControlsOf(uarts));
        RetunesNext(uarts, rate, k);
        current := current.next;
        k := k + 1;
      }
      assert uarts[..k] == uarts;
    }

    /** The clock's own driver sets the rate to what it achieves. */
    method ChangeRate(achieved: nat)
      requires Valid()
      modifies `rate, `log
      ensures Valid() && rate == achieved && log == old(log) + [RateSet(achieved)]
    {
      rate := achieved;
      log := log + [RateSet(achieved)];
    }

    /**
     `metal_clock_set_rate_hz`: every UART drains once, in registration order and at the old rate,
     then the rate changes to whatever the clock achieves, then every UART is retuned once, in the
     same order and at the new rate. Afterwards every divisor matches the new rate.
     */
    method SetRateHz(achieved: nat) returns (out: nat)
      requires Valid() && Coherent()
      modifies `rate, `log, members`div, members`txctrl, members`rxctrl
      ensures Valid() && Coherent() && rate == achieved && out == achieved
      ensures log == old(log) + Drains(uarts, old(rate)) + [RateSet(achieved)] + Retunes(uarts, achieved)
      ensures WatermarkedTo(|uarts|) && OnTo(|uarts|)
      ensures AllKept(old(ControlsOf(uarts)), ControlsOf(uarts))
    {
      assert AllHaveBaud();
      CallPre();
      ghost var mid := ControlsOf(uarts);
      ChangeRate(achieved);
      CallPost();
      AllKeptTwice(old(ControlsOf(uarts)), mid, ControlsOf(uarts));
      out := achieved;
    }
  }
}

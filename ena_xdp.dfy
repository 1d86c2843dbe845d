/*
 * A model of the XDP fast-path decision logic of the ENA network driver:
 * the admission check (maximum MTU, queue count), the test for indices of the
 * dedicated XDP transmit rings, the scan for AF_XDP zero-copy rings and the
 * per-packet verdict dispatcher with its per-ring statistics.
 *
 * Kernel collaborators (running the BPF program, converting the buffer to a
 * frame, redirecting, transmitting) are replaced by their outcomes, given as
 * inputs.
 */
module EnaXdp {

  /** The C type u32. */
  newtype u32 = x: int | 0 <= x < 0x1_0000_0000

  const U32_MODULUS: int := 0x1_0000_0000

  datatype Option<T> = None | Some(value: T)

  // ---------------------------------------------------------------------------
  // Constants from the Linux headers
  // ---------------------------------------------------------------------------

  /** Ethernet header, frame check sequence and 802.1Q tag lengths. */
  const ETH_HLEN: nat := 14
  const ETH_FCS_LEN: nat := 4
  const VLAN_HLEN: nat := 4

  /** The raw verdicts of a BPF program (UAPI enum xdp_action). */
  const XDP_ABORTED: u32 := 0
  const XDP_DROP: u32 := 1
  const XDP_PASS: u32 := 2
  const XDP_TX: u32 := 3
  const XDP_REDIRECT: u32 := 4

  // ---------------------------------------------------------------------------
  // Maximum MTU
  // ---------------------------------------------------------------------------

  /**
   * The constants of one build of the driver that are defined outside the
   * header: ENA_PAGE_SIZE (the receive buffer shared with the device),
   * XDP_PACKET_HEADROOM, SKB_DATA_ALIGN(sizeof(struct skb_shared_info)),
   * and whether the kernel has XDP_HAS_FRAME_SZ.
   */
  datatype Platform = Platform(
    enaPageSize: nat,
    xdpPacketHeadroom: nat,
    skbSharedInfoAligned: nat,
    xdpHasFrameSz: bool)
  {
    /** Room kept after the frame: the shared info, when the frame size is known to XDP. */
    function Tailroom(): nat {
      if xdpHasFrameSz then skbSharedInfoAligned else 0
    }

    /** The buffer holds at least the headroom, the headers and the tailroom. */
    predicate Valid() {
      ETH_HLEN + ETH_FCS_LEN + VLAN_HLEN + xdpPacketHeadroom + Tailroom() <= enaPageSize
    }
  }

  /** Length on the wire of a tagged Ethernet frame carrying `mtu` bytes, FCS included. */
  function FrameLen(mtu: nat): nat {
    ETH_HLEN + VLAN_HLEN + mtu + ETH_FCS_LEN
  }

  /** A frame of this MTU fits the receive buffer together with the headroom and tailroom. */
  predicate FrameFits(p: Platform, mtu: nat) {
    p.xdpPacketHeadroom + FrameLen(mtu) + p.Tailroom() <= p.enaPageSize
  }

  /** ENA_XDP_MAX_MTU: the largest MTU whose frames fit the receive buffer. */
  function XdpMaxMtu(p: Platform): (r: nat)
    requires p.Valid()
    ensures FrameFits(p, r)
    ensures forall mtu: nat :: FrameFits(p, mtu) ==> mtu <= r
  {
    if p.xdpHasFrameSz then
      p.enaPageSize - ETH_HLEN - ETH_FCS_LEN - VLAN_HLEN - p.xdpPacketHeadroom
        - p.skbSharedInfoAligned
    else
      p.enaPageSize - ETH_HLEN - ETH_FCS_LEN - VLAN_HLEN - p.xdpPacketHeadroom
  }

  /** The frame-size build gives up exactly the aligned shared info, so its maximum is never larger. */
  lemma FrameSzMaxMtuIsSmaller(p: Platform)
    requires p.(xdpHasFrameSz := true).Valid()
    ensures p.(xdpHasFrameSz := false).Valid()
    ensures XdpMaxMtu(p.(xdpHasFrameSz := true))
         == XdpMaxMtu(p.(xdpHasFrameSz := false)) - p.skbSharedInfoAligned
    ensures XdpMaxMtu(p.(xdpHasFrameSz := true)) <= XdpMaxMtu(p.(xdpHasFrameSz := false))
  {
  }

  // ---------------------------------------------------------------------------
  // Driver actions (enum ENA_XDP_ACTIONS) and admission verdicts
  // ---------------------------------------------------------------------------

  /** What the receive path does with a packet after the XDP program ran. */
  datatype Action = Pass | Tx | Redirect | Drop

  /** The bit each action has in enum ENA_XDP_ACTIONS. */
  function ActionCode(a: Action): (r: bv32)
    ensures r & (r - 1) == 0
    ensures r == 0 <==> a == Pass
  {
    match a
    case Pass => 0
    case Tx => 1 << 0
    case Redirect => 1 << 1
    case Drop => 1 << 2
  }

  /** ENA_XDP_FORWARDED: the actions after which the packet has left the receive path. */
  const ENA_XDP_FORWARDED: bv32 := ActionCode(Tx) | ActionCode(Redirect)

  predicate IsForwarded(code: bv32): (r: bool)
    ensures r <==> code & ActionCode(Tx) != 0 || code & ActionCode(Redirect) != 0
  {
    code & ENA_XDP_FORWARDED != 0
  }

  /** The action an ENA_XDP_ACTIONS value stands for, if it stands for one. */
  function ActionOfCode(code: bv32): (r: Option<Action>)
    ensures r.Some? ==> ActionCode(r.value) == code
    ensures r.None? ==> forall a: Action :: ActionCode(a) != code
  {
    if code == 0 then Some(Pass)
    else if code == 1 then Some(Tx)
    else if code == 2 then Some(Redirect)
    else if code == 4 then Some(Drop)
    else None
  }

  /** The forwarded mask tests positive for the transmit and redirect actions only. */
  lemma ForwardedIffTxOrRedirect(a: Action)
    ensures IsForwarded(ActionCode(a)) <==> a == Tx || a == Redirect
    ensures ActionOfCode(ActionCode(a)) == Some(a)
  {
  }

  /** enum ena_xdp_errors_t. */
  datatype XdpError = Allowed | CurrentMtuTooLarge | NoEnoughQueues
  {
    function Code(): (r: nat)
      ensures r <= 2
      ensures r == 0 <==> this == Allowed
    {
      match this
      case Allowed => 0
      case CurrentMtuTooLarge => 1
      case NoEnoughQueues => 2
    }
  }

  // ---------------------------------------------------------------------------
  // Verdict dispatch, as a specification
  // ---------------------------------------------------------------------------

  /** The rx_stats counters of a ring that count XDP verdicts. */
  datatype XdpStat = XdpAborted | XdpDrop | XdpPass | XdpTx | XdpInvalid | XdpRedirect

  /** The action reported to the caller alongside each counter. */
  function StatAction(s: XdpStat): Action {
    match s
    case XdpPass => Pass
    case XdpTx => Tx
    case XdpRedirect => Redirect
    case XdpDrop => Drop
    case XdpAborted => Drop
    case XdpInvalid => Drop
  }

  datatype Outcome = Outcome(action: Action, stat: XdpStat)

  /**
   * The action and the counter chosen for a program verdict, given whether
   * the conversion of the buffer to a frame and the redirect succeed.
   */
  function Dispatch(verdict: u32, frameConverted: bool, redirectOk: bool): (r: Outcome)
    ensures StatAction(r.stat) == r.action
  {
    if verdict == XDP_TX then
      if frameConverted then Outcome(Tx, XdpTx) else Outcome(Drop, XdpAborted)
    else if verdict == XDP_REDIRECT then
      if redirectOk then Outcome(Redirect, XdpRedirect) else Outcome(Drop, XdpAborted)
    else if verdict == XDP_ABORTED then
      Outcome(Drop, XdpAborted)
    else if verdict == XDP_DROP then
      Outcome(Drop, XdpDrop)
    else if verdict == XDP_PASS then
      Outcome(Pass, XdpPass)
    else
      Outcome(Drop, XdpInvalid)
  }

  /** A verdict outside enum xdp_action is dropped and counted as invalid, and only such a verdict is. */
  lemma UnknownVerdictIsInvalid(verdict: u32, frameConverted: bool, redirectOk: bool)
    ensures Dispatch(verdict, frameConverted, redirectOk).stat == XdpInvalid
        <==> verdict > XDP_REDIRECT
    ensures verdict > XDP_REDIRECT ==> Dispatch(verdict, frameConverted, redirectOk).action == Drop
  {
  }

  /** XDP_ABORTED, a failed conversion for XDP_TX and a failed redirect are the aborted drops. */
  lemma FailuresAreAborted(verdict: u32, frameConverted: bool, redirectOk: bool)
    ensures Dispatch(verdict, frameConverted, redirectOk).stat == XdpAborted
        <==> (|| verdict == XDP_ABORTED
              || (verdict == XDP_TX && !frameConverted)
              || (verdict == XDP_REDIRECT && !redirectOk))
  {
  }

  /** Only a genuine XDP_DROP bumps xdp_drop, the counter the drop report reads. */
  lemma OnlyGenuineDropCountsAsDrop(verdict: u32, frameConverted: bool, redirectOk: bool)
    ensures Dispatch(verdict, frameConverted, redirectOk).stat == XdpDrop <==> verdict == XDP_DROP
  {
  }

  /** When each action is returned; every other case is a drop. */
  lemma DispatchActions(verdict: u32, frameConverted: bool, redirectOk: bool)
    ensures Dispatch(verdict, frameConverted, redirectOk).action == Pass <==> verdict == XDP_PASS
    ensures Dispatch(verdict, frameConverted, redirectOk).action == Tx
        <==> verdict == XDP_TX && frameConverted
    ensures Dispatch(verdict, frameConverted, redirectOk).action == Redirect
        <==> verdict == XDP_REDIRECT && redirectOk
  {
  }

  /** A packet is reported as forwarded only after a successful conversion or redirect. */
  lemma ForwardedOnlyOnSuccess(verdict: u32, frameConverted: bool, redirectOk: bool)
    ensures IsForwarded(ActionCode(Dispatch(verdict, frameConverted, redirectOk).action))
        <==> (verdict == XDP_TX && frameConverted) || (verdict == XDP_REDIRECT && redirectOk)
  {
    ForwardedIffTxOrRedirect(Dispatch(verdict, frameConverted, redirectOk).action);
    DispatchActions(verdict, frameConverted, redirectOk);
  }

  // ---------------------------------------------------------------------------
  // Rings
  // ---------------------------------------------------------------------------

  /** An AF_XDP buffer pool shared with user space; only its presence matters here. */
  class XskBuffPool {}

  /** A receive ring: its XDP counters (the rx_stats fields) and its zero-copy pool. */
  class RxRing {
    var xdpAborted: nat
    var xdpDrop: nat
    var xdpPass: nat
    var xdpTx: nat
    var xdpInvalid: nat
    var xdpRedirect: nat
    var xskPool: XskBuffPool?

    /** ENA_IS_XSK_RING */
    predicate IsXskRing()
      reads this
    {
      xskPool != null
    }

    /** The field of rx_stats that counts `s`. */
    function Count(s: XdpStat): nat
      reads this
    {
      match s
      case XdpAborted => xdpAborted
      case XdpDrop => xdpDrop
      case XdpPass => xdpPass
      case XdpTx => xdpTx
      case XdpInvalid => xdpInvalid
      case XdpRedirect => xdpRedirect
    }

    /** ena_ring_xdp_drops_cnt: the counter of genuine XDP_DROP verdicts. */
    function XdpDropsCnt(): (r: nat)
      reads this
      ensures r == Count(XdpDrop)
    {
      xdpDrop
    }

    /** ena_increase_stat by one on the counter `s`. */
    method IncreaseStat(s: XdpStat)
      modifies this`xdpAborted, this`xdpDrop, this`xdpPass, this`xdpTx,
               this`xdpInvalid, this`xdpRedirect
      ensures forall k :: Count(k) == old(Count(k)) + (if k == s then 1 else 0)
      ensures xdpAborted == old(xdpAborted) + (if s == XdpAborted then 1 else 0)
      ensures xdpDrop == old(xdpDrop) + (if s == XdpDrop then 1 else 0)
      ensures xdpPass == old(xdpPass) + (if s == XdpPass then 1 else 0)
      ensures xdpTx == old(xdpTx) + (if s == XdpTx then 1 else 0)
      ensures xdpInvalid == old(xdpInvalid) + (if s == XdpInvalid then 1 else 0)
      ensures xdpRedirect == old(xdpRedirect) + (if s == XdpRedirect then 1 else 0)
    {
      match s
      case XdpAborted => xdpAborted := xdpAborted + 1;
      case XdpDrop => xdpDrop := xdpDrop + 1;
      case XdpPass => xdpPass := xdpPass + 1;
      case XdpTx => xdpTx := xdpTx + 1;
      case XdpInvalid => xdpInvalid := xdpInvalid + 1;
      case XdpRedirect => xdpRedirect := xdpRedirect + 1;
    }

    /**
     * ena_xdp_execute. `verdict` is what the program returned; `frameConverted`,
     * `xmitOk` and `redirectOk` are the outcomes of the frame conversion, of
     * ena_xdp_xmit_frame and of xdp_do_redirect. `submitted` says whether the
     * frame was handed to the XDP transmit ring, `frameReturned` whether it
     * was given back with xdp_return_frame.
     */
    method XdpExecute(verdict: u32, frameConverted: bool, xmitOk: bool, redirectOk: bool)
      returns (action: Action, submitted: bool, frameReturned: bool)
      modifies this`xdpAborted, this`xdpDrop, this`xdpPass, this`xdpTx,
               this`xdpInvalid, this`xdpRedirect
      ensures action == Dispatch(verdict, frameConverted, redirectOk).action
      ensures forall k :: Count(k) == old(Count(k)) +
                (if k == Dispatch(verdict, frameConverted, redirectOk).stat then 1 else 0)
      ensures var s := Dispatch(verdict, frameConverted, redirectOk).stat;
        && xdpAborted == old(xdpAborted) + (if s == XdpAborted then 1 else 0)
        && xdpDrop == old(xdpDrop) + (if s == XdpDrop then 1 else 0)
        && xdpPass == old(xdpPass) + (if s == XdpPass then 1 else 0)
        && xdpTx == old(xdpTx) + (if s == XdpTx then 1 else 0)
        && xdpInvalid == old(xdpInvalid) + (if s == XdpInvalid then 1 else 0)
        && xdpRedirect == old(xdpRedirect) + (if s == XdpRedirect then 1 else 0)
      ensures XdpDropsCnt() == old(XdpDropsCnt()) + (if verdict == XDP_DROP then 1 else 0)
      ensures submitted <==> verdict == XDP_TX && frameConverted
      ensures frameReturned <==> submitted && !xmitOk
    {
      var stat: XdpStat;
      submitted, frameReturned := false, false;
      if verdict == XDP_TX {
        if !frameConverted {
          stat := XdpAborted;
        } else {
          // the XDP transmit ring's lock is held around the submission
          submitted := true;
          if !xmitOk {
            frameReturned := true;
          }
          stat := XdpTx;
        }
      } else if verdict == XDP_REDIRECT {
        stat := if redirectOk then XdpRedirect else XdpAborted;
      } else if verdict == XDP_ABORTED {
        stat := XdpAborted;
      } else if verdict == XDP_DROP {
        stat := XdpDrop;
      } else if verdict == XDP_PASS {
        stat := XdpPass;
      } else {
        stat := XdpInvalid;
      }
      action := StatAction(stat);
      IncreaseStat(stat);
      assert Count(XdpDrop) == old(Count(XdpDrop)) + (if stat == XdpDrop then 1 else 0);
    }
  }

  /** The adapter fields the XDP logic reads. */
  class Adapter {
    /** adapter->netdev->mtu */
    var mtu: nat
    var numIoQueues: u32
    var maxNumIoQueues: nat
    var xdpFirstRing: nat
    var xdpNumQueues: nat
    /** The fixed-size rx_ring array; the first numIoQueues entries are in use. */
    const rxRing: array<RxRing>

    constructor (rxRing: array<RxRing>, mtu: nat, numIoQueues: u32, maxNumIoQueues: nat,
                 xdpFirstRing: nat, xdpNumQueues: nat)
      ensures this.rxRing == rxRing && this.mtu == mtu && this.numIoQueues == numIoQueues
      ensures this.maxNumIoQueues == maxNumIoQueues
      ensures this.xdpFirstRing == xdpFirstRing && this.xdpNumQueues == xdpNumQueues
    {
      this.rxRing := rxRing;
      this.mtu := mtu;
      this.numIoQueues := numIoQueues;
      this.maxNumIoQueues := maxNumIoQueues;
      this.xdpFirstRing := xdpFirstRing;
      this.xdpNumQueues := xdpNumQueues;
    }

    /**
     * ena_xdp_legal_queue_count: every I/O queue needs an XDP transmit queue
     * besides its own, so twice the count must fit the hardware. The doubling
     * is done in 32-bit unsigned arithmetic.
     */
    function LegalQueueCount(queues: u32): (r: bool)
      reads this
      ensures queues as int < U32_MODULUS / 2 ==> (r <==> 2 * queues as int <= maxNumIoQueues)
      ensures queues as int >= U32_MODULUS / 2
          ==> (r <==> 2 * queues as int - U32_MODULUS <= maxNumIoQueues)
    {
      (2 * queues as int) % U32_MODULUS <= maxNumIoQueues
    }

    /** ena_xdp_allowed: the MTU is checked before the queue count. */
    function XdpAllowed(p: Platform): (r: XdpError)
      requires p.Valid()
      reads this
      ensures r == CurrentMtuTooLarge <==> !FrameFits(p, mtu)
      ensures r == NoEnoughQueues <==> FrameFits(p, mtu) && !LegalQueueCount(numIoQueues)
      ensures r == Allowed <==> FrameFits(p, mtu) && LegalQueueCount(numIoQueues)
    {
      if mtu > XdpMaxMtu(p) then CurrentMtuTooLarge
      else if !LegalQueueCount(numIoQueues) then NoEnoughQueues
      else Allowed
    }

    /** ENA_IS_XDP_INDEX: the index is one of the xdpNumQueues rings from xdpFirstRing on. */
    predicate IsXdpIndex(index: int): (r: bool)
      reads this
      ensures r <==> index in Interval(xdpFirstRing, xdpNumQueues)
    {
      index >= xdpFirstRing && index < xdpFirstRing + xdpNumQueues
    }

    /** ena_is_zc_q_exist: some ring in use has an AF_XDP pool; later rings are not looked at. */
    method IsZcQExist() returns (b: bool)
      requires numIoQueues as int <= rxRing.Length
      ensures b <==> exists i :: 0 <= i < numIoQueues as int && rxRing[i].IsXskRing()
    {
      var i := 0;
      while i < numIoQueues as int
        invariant 0 <= i <= numIoQueues as int
        invariant forall j :: 0 <= j < i ==> !rxRing[j].IsXskRing()
      {
        if rxRing[i].IsXskRing() {
          return true;
        }
        i := i + 1;
      }
      return false;
    }
  }

  // ---------------------------------------------------------------------------
  // Properties of the admission check and of the XDP ring range
  // ---------------------------------------------------------------------------

  /** For queue counts that do not overflow the doubling: allowed exactly when both limits hold. */
  lemma AllowedIffBothLimits(a: Adapter, p: Platform)
    requires p.Valid()
    requires (a.numIoQueues as int) < U32_MODULUS / 2
    ensures a.XdpAllowed(p) == Allowed
        <==> a.mtu <= XdpMaxMtu(p) && 2 * a.numIoQueues as int <= a.maxNumIoQueues
  {
  }

  /** A too large MTU is reported whatever the queue count; the queue error only when the MTU fits. */
  lemma MtuCheckedFirst(a: Adapter, p: Platform)
    requires p.Valid()
    ensures a.mtu > XdpMaxMtu(p) ==> a.XdpAllowed(p) == CurrentMtuTooLarge
    ensures a.XdpAllowed(p) == NoEnoughQueues
        <==> a.mtu <= XdpMaxMtu(p) && !a.LegalQueueCount(a.numIoQueues)
  {
  }

  /** The 32-bit doubling wraps: a count of 2^31 passes the queue check on any hardware. */
  lemma QueueCountDoublingWraps(a: Adapter)
    ensures a.LegalQueueCount((U32_MODULUS / 2) as u32)
  {
  }

  /** The integers lo, lo + 1, ..., lo + n - 1. */
  function Interval(lo: int, n: nat): (r: set<int>)
    ensures forall i :: i in r <==> lo <= i < lo + n
  {
    if n == 0 then {} else Interval(lo, n - 1) + {lo + n - 1}
  }

  lemma {:induction false} IntervalSize(lo: int, n: nat)
    ensures |Interval(lo, n)| == n
  {
    if n > 0 {
      IntervalSize(lo, n - 1);
      assert lo + n - 1 !in Interval(lo, n - 1);
    }
  }

  /** The interval of XDP ring indices holds exactly xdpNumQueues rings. */
  lemma XdpIndexCount(a: Adapter)
    ensures |Interval(a.xdpFirstRing, a.xdpNumQueues)| == a.xdpNumQueues
  {
    IntervalSize(a.xdpFirstRing, a.xdpNumQueues);
  }

  /** With the first ring at 4 and four XDP rings, indices 4 to 7 are XDP rings and 3 and 8 are not. */
  lemma XdpIndexExample(a: Adapter)
    requires a.xdpFirstRing == 4 && a.xdpNumQueues == 4
    ensures forall i :: 4 <= i <= 7 ==> a.IsXdpIndex(i)
    ensures !a.IsXdpIndex(3) && !a.IsXdpIndex(8)
  {
  }

  /** Without the 2^31 bound the wrapped doubling lets an XDP ring index reach past the hardware. */
  lemma XdpRingsFitHardwareNeedsBound(a: Adapter)
    requires a.numIoQueues as int == U32_MODULUS / 2 && a.maxNumIoQueues == 0
    requires a.xdpFirstRing == a.numIoQueues as int && a.xdpNumQueues == a.numIoQueues as int
    ensures a.LegalQueueCount(a.numIoQueues)
    ensures a.IsXdpIndex(U32_MODULUS / 2) && !(U32_MODULUS / 2 < a.maxNumIoQueues)
  {
  }

  /**
   * When the XDP rings follow the I/O rings one for one and the queue count is
   * legal, the XDP rings are disjoint from the I/O rings and all lie below the
   * hardware queue count.
   */
  lemma XdpRingsFitHardware(a: Adapter)
    requires a.xdpFirstRing == a.numIoQueues as int && a.xdpNumQueues == a.numIoQueues as int
    requires a.numIoQueues as int < U32_MODULUS / 2
    requires a.LegalQueueCount(a.numIoQueues)
    ensures forall i :: 0 <= i < a.numIoQueues as int ==> !a.IsXdpIndex(i)
    ensures forall i :: a.IsXdpIndex(i) ==> 0 <= i < a.maxNumIoQueues
  {
  }
}

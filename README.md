# ENA XDP fast path — a Dafny model

This project models the XDP decision logic of the Amazon ENA network driver. The logic lives in `kernel/linux/ena/ena_xdp.h`. There are four parts:

- **Admission check.** `ENA_XDP_MAX_MTU` computes the largest MTU whose frames fit the receive buffer. `ena_xdp_legal_queue_count` checks that the hardware has room for one XDP transmit queue per I/O queue. `ena_xdp_allowed` turns both checks into an `ena_xdp_errors_t` verdict, and it tests the MTU first.
- **XDP ring range.** `ENA_IS_XDP_INDEX` tests whether a ring index falls among the dedicated XDP transmit rings.
- **Zero-copy scan.** `ena_is_zc_q_exist` scans the receive rings in use for an AF_XDP buffer pool.
- **Verdict dispatcher.** `ena_xdp_execute` maps a BPF program's `enum xdp_action` verdict to one of the driver actions `ENA_XDP_PASS`, `ENA_XDP_TX`, `ENA_XDP_REDIRECT` or `ENA_XDP_DROP`. It also bumps exactly one per-ring `rx_stats` counter.

Everything is in one module, `EnaXdp`, in `ena_xdp.dfy`:

- The pure macros and inline functions are Dafny functions.
- The adapter is a class. It holds the fields these functions read and the fixed-size `rx_ring` array, which the zero-copy scan walks with a loop.
- A receive ring is a class. Its `rx_stats` counters are fields, and `RxRing.XdpExecute` updates them in place.
- The pure function `Dispatch` specifies which action and which counter each verdict selects. The lemmas beside it state the dispatcher's guarantees.

Each kernel collaborator of the dispatcher becomes an input:

- `bpf_prog_run_xdp` becomes the raw verdict.
- The buffer-to-frame conversion becomes the flag `frameConverted`.
- `ena_xdp_xmit_frame` becomes the flag `xmitOk`.
- `xdp_do_redirect` becomes the flag `redirectOk`.

The UAPI verdict codes are ABORTED=0, DROP=1, PASS=2, TX=3 and REDIRECT=4. The Linux header lengths are `ETH_HLEN`=14, `ETH_FCS_LEN`=4 and `VLAN_HLEN`=4.

Three constants are defined outside the header: `ENA_PAGE_SIZE`, `XDP_PACKET_HEADROOM` and `SKB_DATA_ALIGN(sizeof(struct skb_shared_info))`. They are fields of a `Platform` value. That value also records whether the kernel defines `XDP_HAS_FRAME_SZ`, so both build variants of the maximum MTU are modelled. `Platform.Valid()` requires the page to be large enough that the subtraction cannot underflow.

The code and the usual reading of the queue rule differ in one place. The rule is usually read as "2 × queues ≤ max_num_io_queues". In the code, `queues` is a `u32`, so `2 * queues` is computed modulo 2^32. The model follows the code. `Adapter.LegalQueueCount` states the exact 32-bit behaviour, and the plain inequality is proved for counts below 2^31.

## Model

| member | source | states |
|---|---|---|
| `EnaXdp.XdpMaxMtu` | kernel/linux/ena/ena_xdp.h:20-32 | The result is the largest MTU whose frame fits the page. The frame is the tagged Ethernet header, the payload and the FCS. The page also holds the XDP headroom and, in frame-size builds, the aligned shared info. |
| `EnaXdp.FrameSzMaxMtuIsSmaller` | kernel/linux/ena/ena_xdp.h:25-32 | The `XDP_HAS_FRAME_SZ` maximum equals the legacy maximum minus the aligned `skb_shared_info` size, so it is never larger. |
| `EnaXdp.ActionCode` | kernel/linux/ena/ena_xdp.h:37-42 | The `ENA_XDP_ACTIONS` value of each action: PASS is 0 and TX, REDIRECT and DROP are BIT(0), BIT(1) and BIT(2). Every value has at most one bit set, and only PASS is zero. |
| `EnaXdp.IsForwarded` | kernel/linux/ena/ena_xdp.h:44 | Testing a value against `ENA_XDP_FORWARDED` is true exactly when the TX bit or the REDIRECT bit is set. |
| `EnaXdp.XdpError.Code` | kernel/linux/ena/ena_xdp.h:65-69 | The `ena_xdp_errors_t` values: ALLOWED is 0, CURRENT_MTU_TOO_LARGE is 1 and NO_ENOUGH_QUEUES is 2. Only ALLOWED is zero. |
| `EnaXdp.ActionOfCode` | kernel/linux/ena/ena_xdp.h:37-42 | Decodes an `ENA_XDP_ACTIONS` value (0, BIT(0), BIT(1), BIT(2)). A decoded action encodes back to the same value. A value that no action has decodes to nothing. |
| `EnaXdp.ForwardedIffTxOrRedirect` | kernel/linux/ena/ena_xdp.h:44 | The `ENA_XDP_FORWARDED` mask is set exactly for TX and REDIRECT. Every action code decodes back to its action. |
| `EnaXdp.Adapter.LegalQueueCount` | kernel/linux/ena/ena_xdp.h:81-85 | For counts below 2^31 the check holds exactly when 2·queues ≤ max_num_io_queues. For larger counts the 32-bit doubling wraps and the check compares 2·queues − 2^32. |
| `EnaXdp.QueueCountDoublingWraps` | kernel/linux/ena/ena_xdp.h:84 | Because the doubling wraps, a count of 2^31 passes the queue check whatever the hardware queue count. |
| `EnaXdp.Adapter.XdpAllowed` | kernel/linux/ena/ena_xdp.h:87-97 | Returns MTU-too-large exactly when a frame of the current MTU does not fit the buffer. Returns not-enough-queues exactly when it fits and the queue count is illegal. Returns allowed exactly when both hold. |
| `EnaXdp.AllowedIffBothLimits` | kernel/linux/ena/ena_xdp.h:87-97 | For queue counts below 2^31, XDP is allowed exactly when mtu ≤ `ENA_XDP_MAX_MTU` and 2·num_io_queues ≤ max_num_io_queues. |
| `EnaXdp.MtuCheckedFirst` | kernel/linux/ena/ena_xdp.h:91-94 | A too-large MTU yields MTU-too-large whatever the queue count. Not-enough-queues is returned only when the MTU fits and the queue check fails. |
| `EnaXdp.Adapter.IsXdpIndex` | kernel/linux/ena/ena_xdp.h:34-35 | True exactly when xdp_first_ring ≤ index < xdp_first_ring + xdp_num_queues, the interval of the XDP rings. The sum is taken without u32 wrap. |
| `EnaXdp.XdpIndexCount` | kernel/linux/ena/ena_xdp.h:34-35 | The indices `ENA_IS_XDP_INDEX` accepts, xdp_first_ring, …, xdp_first_ring + xdp_num_queues − 1, are exactly xdp_num_queues in number. |
| `EnaXdp.XdpIndexExample` | kernel/linux/ena/ena_xdp.h:34-35 | With first ring 4 and four XDP queues, indices 4 to 7 pass and 3 and 8 do not. |
| `EnaXdp.XdpRingsFitHardware` | kernel/linux/ena/ena_xdp.h:81-85 | Assume the XDP rings follow the I/O rings one for one, and the queue count is below 2^31 and legal. Then no I/O ring index is an XDP index, and every XDP index is below max_num_io_queues. |
| `EnaXdp.XdpRingsFitHardwareNeedsBound` | kernel/linux/ena/ena_xdp.h:84 | With 2^31 I/O queues, XDP rings placed after them and max_num_io_queues = 0, the wrapped doubling passes the queue check, yet XDP index 2^31 is not below max_num_io_queues. |
| `EnaXdp.RxRing.IsXskRing` | kernel/linux/ena/ena_xdp.h:17 | A ring is a zero-copy ring exactly when it has an AF_XDP buffer pool. |
| `EnaXdp.Adapter.IsZcQExist` | kernel/linux/ena/ena_xdp.h:105-114 | Returns true exactly when some `rx_ring[i]` with i < num_io_queues has an AF_XDP pool. Rings at or beyond num_io_queues do not affect the result. |
| `EnaXdp.Dispatch` | kernel/linux/ena/ena_xdp.h:129-183 | Each verdict selects one counter and one action. The action always matches the counter: pass, tx and redirect are reported as such, and the aborted, drop and invalid counters all go with DROP. |
| `EnaXdp.DispatchActions` | kernel/linux/ena/ena_xdp.h:129-183 | PASS is returned exactly for `XDP_PASS`. TX is returned exactly for `XDP_TX` with a converted frame. REDIRECT is returned exactly for a successful `XDP_REDIRECT`. Everything else is DROP. |
| `EnaXdp.UnknownVerdictIsInvalid` | kernel/linux/ena/ena_xdp.h:179-183 | A verdict outside `enum xdp_action` is dropped and counted in `xdp_invalid`, and no other verdict is counted there. |
| `EnaXdp.FailuresAreAborted` | kernel/linux/ena/ena_xdp.h:130-170 | `xdp_aborted` is chosen exactly for `XDP_ABORTED`, for `XDP_TX` whose conversion fails and for `XDP_REDIRECT` whose redirect fails. |
| `EnaXdp.OnlyGenuineDropCountsAsDrop` | kernel/linux/ena/ena_xdp.h:171-174 | `xdp_drop`, the counter `ena_ring_xdp_drops_cnt` reports, is chosen exactly for a genuine `XDP_DROP`. |
| `EnaXdp.ForwardedOnlyOnSuccess` | kernel/linux/ena/ena_xdp.h:143-161 | The returned action passes the `ENA_XDP_FORWARDED` test exactly after a successful conversion for `XDP_TX` or a successful redirect. |
| `EnaXdp.RxRing.XdpDropsCnt` | kernel/linux/ena/ena_xdp.h:99-102 | Reports the ring's `xdp_drop` counter, which counts genuine `XDP_DROP` verdicts only. |
| `EnaXdp.RxRing.IncreaseStat` | kernel/linux/ena/ena_xdp.h:185 | The selected counter goes up by one, and every other counter is unchanged. |
| `EnaXdp.RxRing.XdpExecute` | kernel/linux/ena/ena_xdp.h:117-188 | Selects the counter `Dispatch` selects and returns the action that goes with it. It bumps exactly that counter, by one, field by field. The drop count (`ena_ring_xdp_drops_cnt`) rises exactly on `XDP_DROP`. The frame goes to the XDP transmit ring exactly when `XDP_TX` converted it. It is returned once exactly when that submission fails, and TX is reported either way. |

## Left out

- The spin lock around the shared XDP transmit ring and `READ_ONCE` of the program pointer: both exist for concurrency. The submission is one sequential step here.
- `bpf_prog_run_xdp`, the buffer-to-frame conversion, `xdp_do_redirect`, `ena_xdp_xmit_frame` and `xdp_return_frame`: their bodies are not part of this model. Each is an input flag or a returned outcome.
- `trace_xdp_exception` and `bpf_warn_invalid_xdp_action`: they only trace or log.
- `ena_increase_stat`: the u64_stats sync is left out and the counters are unbounded naturals. The model does not capture 64-bit wrap-around.
- The functions only declared in the header (queue setup, program exchange over a range, `ena_xdp_io_poll`, `ena_xdp_xmit`, `ena_xdp`, the rxq_info register/unregister pair, the zero-copy free functions and `ena_xdp_xsk_wakeup`): their bodies are not part of this model.
- The stubs for builds without XDP or AF_XDP support: they are constant false, zero or empty.
- `ena_xdp_present` and `ena_xdp_present_ring`: they only test a pointer for null, and the dispatcher here receives the program's verdict directly.
- Adapter field widths: `struct ena_adapter` is not part of this model. Its fields are naturals, except `num_io_queues`, which reaches the queue check as a `u32`. The sum in `ENA_IS_XDP_INDEX` is therefore taken without wrap-around.
- `AllowedIffBothLimits`: holds only for I/O queue counts below 2^31. Above that the code's 32-bit doubling wraps (see `QueueCountDoublingWraps`).
- `XdpRingsFitHardware`: the placement of the XDP rings right after the I/O rings is set outside this header. The lemma takes that placement as a hypothesis. It also assumes fewer than 2^31 I/O queues. With 2^31 queues and max_num_io_queues = 0, the wrapped doubling passes the queue check, yet XDP index 2^31 is not below the hardware queue count (see `XdpRingsFitHardwareNeedsBound`).

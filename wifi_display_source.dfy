/**
 * The response-correlation key of a Wi-Fi Display source's RTSP control
 * side, and the compile-time constants that configure its timers and port.
 *
 * A Wi-Fi Display source sends RTSP requests (M1, M3, M4, M5, M16) to the
 * sink over one network session and must route each response back to the
 * handler of the request it answers. The routing table is keyed by a pair
 * (network session id, CSeq), where CSeq is the RTSP sequence-number header
 * of section 12.17 of RFC 2326, and ordered lexicographically on that pair.
 */
module WifiDisplaySource {

  /** C++ `int32_t`. */
  newtype Int32 = x: int | -0x8000_0000 <= x < 0x8000_0000

  /** C++ `int64_t`. */
  newtype Int64 = x: int | -0x8000_0000_0000_0000 <= x < 0x8000_0000_0000_0000

  /** C++ `unsigned` (32 bits on the platforms the source targets). */
  newtype UInt32 = x: int | 0 <= x < 0x1_0000_0000

  datatype Option<T> = None | Some(value: T)

  // ---------------------------------------------------------------------
  // Compile-time constants
  // ---------------------------------------------------------------------

  /** The TCP port the source listens on unless told otherwise. */
  const WifiDisplayDefaultPort: UInt32 := 7236

  /** Period of the dead-client reaper, in microseconds. */
  const ReaperIntervalUs: Int64 := 1000000

  /** Inactivity bound of a playback session, in seconds. */
  const PlaybackSessionTimeoutSecs: Int64 := 30

  /**
   * The same bound in microseconds. The product is computed in `int64_t`;
   * the newtype makes Dafny check that it does not overflow.
   */
  const PlaybackSessionTimeoutUs: Int64 := PlaybackSessionTimeoutSecs * 1000000

  /** A port number a TCP endpoint can be bound to: 16 bits, not zero. */
  predicate IsTcpPort(p: int) {
    0 < p < 0x1_0000
  }

  lemma DefaultPortIsTcpPort()
    ensures WifiDisplayDefaultPort == 7236
    ensures IsTcpPort(WifiDisplayDefaultPort as int)
  {
  }

  lemma PlaybackSessionTimeoutIsThirtyReaperIntervals()
    ensures PlaybackSessionTimeoutUs == 30_000_000
    ensures PlaybackSessionTimeoutUs == 30 * ReaperIntervalUs
    ensures PlaybackSessionTimeoutUs == PlaybackSessionTimeoutSecs * ReaperIntervalUs
  {
  }

  // ---------------------------------------------------------------------
  // The response key and its order
  // ---------------------------------------------------------------------

  /** Identifies an outstanding request: the network session it went out on and its CSeq. */
  datatype ResponseID = ResponseID(sessionID: Int32, cseq: Int32)

  /** The key's `operator<`: session id first, CSeq to break ties. */
  predicate Less(a: ResponseID, b: ResponseID) {
    a.sessionID < b.sessionID
    || (a.sessionID == b.sessionID && a.cseq < b.cseq)
  }

  /** Two keys a table ordered by `Less` cannot tell apart: neither precedes the other. */
  predicate Equivalent(a: ResponseID, b: ResponseID) {
    !Less(a, b) && !Less(b, a)
  }

  lemma LessIrreflexive(a: ResponseID)
    ensures !Less(a, a)
  {
  }

  lemma LessAsymmetric(a: ResponseID, b: ResponseID)
    ensures Less(a, b) ==> !Less(b, a)
  {
  }

  lemma LessTransitive(a: ResponseID, b: ResponseID, c: ResponseID)
    requires Less(a, b) && Less(b, c)
    ensures Less(a, c)
  {
  }

  /**
   * Exactly one of `a < b`, `b < a` and "same session and same CSeq" holds.
   */
  lemma LessTrichotomy(a: ResponseID, b: ResponseID)
    ensures Less(a, b) || Less(b, a) || (a.sessionID == b.sessionID && a.cseq == b.cseq)
    ensures !(Less(a, b) && Less(b, a))
    ensures a.sessionID == b.sessionID && a.cseq == b.cseq ==> !Less(a, b) && !Less(b, a)
  {
  }

  /** Equivalence under the order is field-wise equality, which is equality of keys. */
  lemma EquivalentIffSameFields(a: ResponseID, b: ResponseID)
    ensures Equivalent(a, b) <==> (a.sessionID == b.sessionID && a.cseq == b.cseq)
    ensures Equivalent(a, b) <==> a == b
  {
  }

  /**
   * The session id dominates: a smaller session id comes first whatever the
   * CSeqs, a larger one comes after, and within one session the order is
   * exactly the CSeq order.
   */
  lemma SessionIDDominates(a: ResponseID, b: ResponseID)
    ensures a.sessionID < b.sessionID ==> Less(a, b)
    ensures a.sessionID > b.sessionID ==> !Less(a, b)
    ensures a.sessionID == b.sessionID ==> (Less(a, b) <==> a.cseq < b.cseq)
  {
  }

  /** The conditions a relation must meet to order the keys of a sorted table. */
  ghost predicate IsStrictTotalOrder<T(!new)>(lt: (T, T) -> bool) {
    && (forall x :: !lt(x, x))
    && (forall x, y :: lt(x, y) ==> !lt(y, x))
    && (forall x, y, z :: lt(x, y) && lt(y, z) ==> lt(x, z))
    && (forall x, y :: x != y ==> lt(x, y) || lt(y, x))
  }

  lemma LessIsStrictTotalOrder()
    ensures IsStrictTotalOrder(Less)
  {
  }

  // ---------------------------------------------------------------------
  // An independent reference for the order: packing the key into 64 bits
  // ---------------------------------------------------------------------

  /**
   * The key as one unsigned 64-bit number: the session id, offset to be
   * non-negative, in the high 32 bits and the offset CSeq in the low 32.
   */
  function Rank(k: ResponseID): (r: nat)
    ensures r < 0x1_0000_0000_0000_0000
    ensures r / 0x1_0000_0000 == k.sessionID as int + 0x8000_0000
    ensures r % 0x1_0000_0000 == k.cseq as int + 0x8000_0000
  {
    (k.sessionID as int + 0x8000_0000) * 0x1_0000_0000 + (k.cseq as int + 0x8000_0000)
  }

  /** `Less` is the numeric order of the packed keys. */
  lemma LessIffRankLess(a: ResponseID, b: ResponseID)
    ensures Less(a, b) <==> Rank(a) < Rank(b)
  {
  }

  /** Distinct keys pack to distinct numbers. */
  lemma RankInjective(a: ResponseID, b: ResponseID)
    ensures Rank(a) == Rank(b) <==> a == b
  {
  }

  // ---------------------------------------------------------------------
  // The response-handler table
  // ---------------------------------------------------------------------

  /** The handler a response is routed to, one per request the source sends. */
  datatype HandlerTag = M1 | M3 | M4 | M5 | M16

  /** The table of outstanding requests, from key to the handler awaiting the response. */
  type ResponseHandlers = map<ResponseID, HandlerTag>

  /**
   * The handler a table ordered by `Less` finds for `key`: that of a stored
   * key neither before nor after it. It is exactly the handler registered
   * under the same session id and CSeq, and none when there is none.
   */
  function HandlerFor(table: ResponseHandlers, key: ResponseID): (r: Option<HandlerTag>)
    ensures r.Some? <==> key in table
    ensures r.Some? ==> r.value == table[key]
  {
    if exists k :: k in table && Equivalent(k, key) then
      var k :| k in table && Equivalent(k, key);
      Some(table[k])
    else
      None
  }

  /** The table holds at most one handler for any (session, CSeq) pair. */
  lemma AtMostOneHandler(table: ResponseHandlers, key: ResponseID)
    ensures |set k | k in table && Equivalent(k, key)| <= 1
  {
    var matching := set k | k in table && Equivalent(k, key);
    forall k | k in matching ensures k == key {
      EquivalentIffSameFields(k, key);
    }
    if key in matching {
      assert matching == {key};
    } else {
      assert matching == {};
    }
  }

  /** Keys laid out in increasing order, each before its successor. */
  ghost predicate SortedKeys(keys: seq<ResponseID>) {
    forall i | 0 < i < |keys| :: Less(keys[i - 1], keys[i])
  }

  /**
   * A key sequence sorted step by step under `Less` is ordered pairwise, so a
   * sorted table of these keys never stores one (session, CSeq) pair twice.
   */
  lemma {:induction false} SortedKeysOrderedPairwise(keys: seq<ResponseID>)
    requires SortedKeys(keys)
    ensures forall i, j | 0 <= i < j < |keys| :: Less(keys[i], keys[j])
    ensures forall i, j | 0 <= i < j < |keys| :: keys[i] != keys[j]
  {
    if |keys| > 1 {
      var init := keys[..|keys| - 1];
      assert SortedKeys(init) by {
        forall i | 0 < i < |init| ensures Less(init[i - 1], init[i]) {
          assert init[i - 1] == keys[i - 1] && init[i] == keys[i];
        }
      }
      SortedKeysOrderedPairwise(init);
      forall i, j | 0 <= i < j < |keys| ensures Less(keys[i], keys[j]) {
        if j < |keys| - 1 {
          assert keys[i] == init[i] && keys[j] == init[j];
        } else if i < j - 1 {
          assert keys[i] == init[i] && keys[j - 1] == init[j - 1];
          LessTransitive(keys[i], keys[j - 1], keys[j]);
        }
      }
      forall i, j | 0 <= i < j < |keys| ensures keys[i] != keys[j] {
        LessIrreflexive(keys[i]);
      }
    }
  }
}

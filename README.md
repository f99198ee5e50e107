# Wi-Fi Display source: response key and constants

This project models the part of the Wi-Fi Display (Miracast) source's RTSP
control side that the interface of `WifiDisplaySource` fully determines:

- `ResponseID`, the key of the response-correlation table `mResponseHandlers`.
  It pairs a network session id with an RTSP `CSeq`, the sequence-number
  header of section 12.17 of RFC 2326. Its `operator<` orders keys
  lexicographically: session id first, then CSeq.
- The table itself, stated abstractly as a Dafny `map` from key to handler.
  The handler is one of the five response handlers the source declares:
  M1, M3, M4, M5 and M16.
- The compile-time constants: the default TCP port, the reaper interval and
  the playback-session timeout.

The model shows that `operator<` is a strict total order, so it is a valid
key order for a sorted table. It shows that two keys the order cannot tell
apart are the same (session, CSeq) pair, so the table holds at most one
handler per pair. It also shows that the order is the numeric order of the
key packed into 64 bits, which is an independent reference definition.
The C++ integer widths are written out as newtypes: `int32_t`, `int64_t` and
`unsigned`. Because of this, computing the timeout constant in `int64_t` is
checked not to overflow.

Everything is in one module, `WifiDisplaySource`, in `wifi_display_source.dfy`.

## Model

| member | source | states |
|---|---|---|
| `WifiDisplaySource.DefaultPortIsTcpPort` | media/libstagefright/wifi-display/source/WifiDisplaySource.h:35 | the default port is 7236 and is a valid non-zero 16-bit TCP port |
| `WifiDisplaySource.PlaybackSessionTimeoutIsThirtyReaperIntervals` | media/libstagefright/wifi-display/source/WifiDisplaySource.h:74-79 | the timeout is 30,000,000 µs, which is 30 reaper intervals, and computing it in `int64_t` does not overflow |
| `WifiDisplaySource.LessIrreflexive` | media/libstagefright/wifi-display/source/WifiDisplaySource.h:64-68 | no key is less than itself |
| `WifiDisplaySource.LessAsymmetric` | media/libstagefright/wifi-display/source/WifiDisplaySource.h:64-68 | if a < b then not b < a |
| `WifiDisplaySource.LessTransitive` | media/libstagefright/wifi-display/source/WifiDisplaySource.h:64-68 | a < b and b < c give a < c |
| `WifiDisplaySource.LessTrichotomy` | media/libstagefright/wifi-display/source/WifiDisplaySource.h:60-69 | exactly one of a < b, b < a, or (same session id and same CSeq) holds |
| `WifiDisplaySource.EquivalentIffSameFields` | media/libstagefright/wifi-display/source/WifiDisplaySource.h:60-69 | two keys are equivalent under the order (neither is less than the other) iff both fields are equal, which is iff the keys are equal |
| `WifiDisplaySource.SessionIDDominates` | media/libstagefright/wifi-display/source/WifiDisplaySource.h:65-67 | a smaller session id sorts first whatever the CSeqs, and a larger one sorts after; with equal session ids the order is exactly the CSeq order |
| `WifiDisplaySource.LessIsStrictTotalOrder` | media/libstagefright/wifi-display/source/WifiDisplaySource.h:64-68 | `operator<` is irreflexive, asymmetric, transitive and connected, so it is a valid key order for a sorted table |
| `WifiDisplaySource.Rank` | media/libstagefright/wifi-display/source/WifiDisplaySource.h:60-62 | a key of two `int32_t` fields packs into an unsigned 64-bit number, with the session id in the high half and the CSeq in the low half |
| `WifiDisplaySource.LessIffRankLess` | media/libstagefright/wifi-display/source/WifiDisplaySource.h:64-68 | `operator<` holds exactly when the packed key of a is numerically smaller than that of b |
| `WifiDisplaySource.RankInjective` | media/libstagefright/wifi-display/source/WifiDisplaySource.h:60-69 | two keys pack to the same number iff they are the same key |
| `WifiDisplaySource.HandlerFor` | media/libstagefright/wifi-display/source/WifiDisplaySource.h:101 | a lookup that matches keys by order equivalence finds a handler iff one is registered under the same (session, CSeq), and then it finds exactly that handler |
| `WifiDisplaySource.AtMostOneHandler` | media/libstagefright/wifi-display/source/WifiDisplaySource.h:101 | at most one entry of the table is equivalent under the order to any given (session, CSeq) key |
| `WifiDisplaySource.SortedKeysOrderedPairwise` | media/libstagefright/wifi-display/source/WifiDisplaySource.h:64-68 | keys stored so that each is less than its successor are ordered pairwise and are pairwise distinct |

## Left out

The header declares much more, but the bodies are not part of this model.
Modelling those members would mean inventing their behaviour.

- The handshake senders `sendM1`, `sendM3`, `sendM4`, `sendM5` and `sendM16`, and their response handlers `onReceiveM*Response`: no bodies, so they are not modelled. `HandlerTag` only names them.
- `registerResponseHandler`: no body, so how entries are added or replaced is not modelled. The table is only a `map`.
- The request dispatchers: `onReceiveClientData`, `onDescribeRequest`, `onOptionsRequest`, `onSetupRequest`, `onPlayRequest`, `onPauseRequest`, `onTeardownRequest`, `onGetParameterRequest` and `onSetParameterRequest`. None has a body.
- `sendErrorResponse`, `AppendCommonResponse`, `makeUniquePlaybackSessionID` and `findPlaybackSession`: no bodies.
- `scheduleReaper`, `scheduleKeepAlive` and `disconnectClient`: no bodies. They also depend on timers and the message loop.
- The `AHandler` message loop, `onMessageReceived` and the `kWhat*` message codes: event queueing and timer plumbing.
- `start` and `stop`, with the interface address: socket I/O.
- `ANetworkSession`, `IRemoteDisplayClient`, `ParsedMessage` and `PlaybackSession`: external collaborators whose code is not part of this model.
- The mutable fields `mNextCSeq`, `mClientInfo`, `mReaperPending`, `mSessionID` and `mClientSessionID`: the code that updates them is not part of this model, so they have no state model.
- `KeyedVector`: its sorted-vector insertion, replacement and binary search are not part of this model. The table is an abstract map. `SortedKeysOrderedPairwise` speaks only about the ordering that such a sorted layout relies on.

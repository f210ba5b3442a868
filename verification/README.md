# BLE RSA key-exchange server — Dafny model

This project models the GATT request handling of the BLE server in `ble_server.py`.
The server publishes its RSA public key, accepts a client's public key by a write,
and serves an "encrypted HRM" characteristic. Until a client key is known, a read of
that characteristic returns a two-octet sentinel. Once a key is known, each read
encrypts `b"Hello HRM"` under the client key, stores and notifies the ciphertext, and
returns it.

The state is an immutable record (`BleServer.Server`) with three parts:
- the characteristic table, a map from UUID to flags and current value;
- the optional client key;
- the log of notifications sent.

The two handlers, `read_request` and `write_request`, are pure functions from state to
state plus reply. The startup part of `run` is the function `Startup`. Sessions are
sequences of requests that the transport delivers one at a time (`Traces.Run`). The
session-level ordering facts are lemmas over those sequences.

The `rsa` package is foreign code. It enters the model as `Rsa.Crypto`, a record of
total functions the caller provides:
- DER `load_pkcs1`, where `None` stands for the exception it raises;
- DER `save_pkcs1`;
- the randomised RSAES-PKCS1-v1_5 block encryption, which takes an explicit nonce.

Only one piece of the package is written out: the check in section 7.2.1 of RFC 8017
that makes `rsa.encrypt` raise when the message is longer than `k - 11` octets. It is
written out because it decides which path the encrypted read takes. Two facts about a
conforming implementation are stated as predicates, and only the lemmas that need them
assume them:
- `FixedLengthCiphertext`: a ciphertext is `k` octets long;
- `DerRoundTrip`: parsing the DER serialisation of a key gives the key back.

Layout: `wrappers.dfy` (Option/Result/Outcome), `octets.dfy` (bytes), `rsa.dfy`
(keys and the foreign crypto), `gatt.dfy` (UUIDs and the characteristic table),
`ble_server.dfy` (state and handlers), `traces.dfy` (sessions and their lemmas).

Behaviour of the code worth knowing before reading the contracts:
- **No exactly-once guard.** Every write to client-public-key whose bytes parse
  replaces the client key (ble_server.py:49-51). The last such write wins
  (`Traces.LastKeyWriteWins`).
- **PKCS#1 v1.5 padding.** The server encrypts with `rsa.encrypt` (ble_server.py:39),
  which pads as in section 7.2.1 of RFC 8017. That padding needs 11 octets of the
  modulus.
- **Other characteristics are plain reads.** A read of any characteristic other than
  encrypted-HRM returns its stored value (ble_server.py:43). Before anything has been
  stored, that value is Python `None`.
- **The handlers do not check flags.** `write_request` stores into whatever
  characteristic it is handed (ble_server.py:47). The server-key characteristic stays
  fixed only because it declares no write property (ble_server.py:75-78). So it stays
  fixed only under a transport that enforces the declared flags
  (`Traces.ServerKeyCharStable` assumes such a transport).
- **Errors are exceptions.** A failed key parse (ble_server.py:51) or an oversized
  encryption (ble_server.py:39) raises out of the handler. The model reports these as
  `Fail(KeyParseError)` and `Failure(MessageTooLong(..))`.

## Model

| member | source | states |
|---|---|---|
| Rsa.Encrypt | ble_server.py:39 | `rsa.encrypt` succeeds exactly when the modulus is at least 256 to the power of the padded message length minus one, i.e. when the message and its 11 octets of padding fit in the modulus; on success the result is the block encryption under the given randomness; otherwise it raises a message-too-long error that carries the message length and the limit |
| Rsa.OctetLengthAtLeast | ble_server.py:39 | a modulus spans at least `k > 1` octets exactly when it is at least 256 to the power `k - 1`; this links the size check in terms of octet counts to the modulus value |
| Rsa.OctetLengthBounds | ble_server.py:39 | the key length `k` used by the encryption's size check is the least number of octets that can hold the modulus |
| Gatt.UuidsDistinct | ble_server.py:27-30 | the three characteristic UUIDs are pairwise distinct, and the service UUID names none of them |
| Gatt.RegisteredTable | ble_server.py:75-111 | exactly three characteristics are registered, all without a value; only client-public-key has the write property, and only the other two have the read property |
| BleServer.Startup | ble_server.py:56-117 | after startup the server-public-key characteristic holds the DER serialisation of the server key, the other two hold nothing, no client key is known, and exactly one notification (the server key) has been sent |
| BleServer.ReadRequest | ble_server.py:32-43 | reading a characteristic other than encrypted-HRM returns its value and changes nothing; an encrypted-HRM read with no client key returns `3D 93` and changes nothing; with a key it returns the ciphertext of "Hello HRM", stores it in that characteristic and appends exactly one notification carrying it, or raises and changes nothing if the payload does not fit the key; no read changes the client key or any other characteristic |
| BleServer.WriteRequest | ble_server.py:46-53 | every write stores the written bytes into its target and changes no other characteristic, whatever the target and whether or not a later parse fails; writes never notify; only a write to client-public-key can change the client key; there it becomes the parsed key, or stays as it was and the handler raises when the bytes do not parse |
| Traces.ReadsBeforeKeyChangeNothing | ble_server.py:34-38 | while no client key is known, any number of reads leaves the whole server state unchanged; every encrypted-HRM read answers `3D 93` and every other read answers the stored value |
| Traces.KeyUnchangedWithoutKeyWrite | ble_server.py:49-51 | a session with no parseable write to client-public-key ends with the client key it started with |
| Traces.LastKeyWriteWins | ble_server.py:49-51 | after a session, the client key is the one parsed from the latest parseable write to client-public-key; earlier keys are overwritten, because there is no exactly-once guard |
| Traces.KeyKnownIff | ble_server.py:26-51 | a client key is known after a session if and only if one was known before it or some write in it parsed; a known key is never cleared |
| Traces.ServerKeyCharStable | ble_server.py:32-53 | if every write uses a characteristic that declares the write property, a session never changes the server-public-key characteristic |
| Traces.PublishedKeyStable | ble_server.py:116-117 | after startup and any session of flag-respecting writes, the server-public-key characteristic still holds the DER serialisation of the server key |
| Traces.NotificationsOnlyForHrm | ble_server.py:41-42 | the handlers only ever append to the notification log, and every entry they append is for encrypted-HRM in the service and carries a value |
| Traces.SentinelIffNoKey | ble_server.py:36-39 | if ciphertexts are as long as the modulus, an encrypted-HRM read answers the sentinel if and only if no client key is known |
| Traces.SentinelExactlyBeforeKeyWrite | ble_server.py:34-51 | in a session that starts with no client key, an encrypted-HRM read answers the sentinel if and only if no earlier write in the session parsed as a key |
| Traces.EndToEnd | ble_server.py:32-117 | after startup, a client that reads the server key, writes its own DER key and reads encrypted-HRM twice gets: the server key, no write reply, then "Hello HRM" encrypted under its key with each read's randomness; each ciphertext is also notified |

## Left out

- Key generation (`rsa.newkeys(256)`): the server's public key is a parameter of `Startup`. The private key is never used by the handlers.
- RSA internals: DER parsing and serialisation, and the PKCS#1 v1.5 padding and exponentiation, are functions supplied in `Rsa.Crypto`. Randomness is an explicit nonce on each read.
- The `bless` server plumbing is not modelled: service and characteristic registration calls, `start`/`stop`, and the transport behind `update_value`. A notification is an entry appended to a log. Whether the BLE stack enforces the declared flags is left to the transport (`Traces.Permitted`).
- The platform-dependent `asyncio.Event`/`threading.Event` trigger is left out as concurrency. So are the connection-polling and idle loops and the event-loop bootstrap. The handlers are modelled as running one at a time, to completion.
- Logging calls: they have no effect on state.
- UUID lower-casing: the UUIDs are written as the lower-case strings that `.lower()` produces.
- The handlers are modelled as receiving the characteristic stored in the server, so a value stored through `get_characteristic` is the one returned through the `characteristic` argument.
- `CMPEN462Proj.py` (the client) is not part of this model. It is BLE I/O plus a wrapper around the `cryptography` library's OAEP encryption.

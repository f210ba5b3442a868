/** Sequences of GATT requests delivered to the server one at a time, and the
    facts that hold over whole sessions: the sentinel before a key, ciphertext
    after, the last parsed client key winning, and the server key never moving. */
module Traces {
  import opened Wrappers
  import opened Octets
  import opened Rsa
  import opened Gatt
  import opened BleServer

  /** A request the transport delivers: a read (with the randomness its encryption
      would draw) or a write of some bytes. */
  datatype Event = ReadEvent(uuid: Uuid, nonce: Nonce) | WriteEvent(uuid: Uuid, value: Bytes)

  /** What the transport sends back for one event. */
  datatype Reply = ReadReply(result: Result<Option<Bytes>, CryptoError>) | WriteReply(outcome: Outcome<CryptoError>)

  /** A session's final state and the reply to each event, in order. */
  datatype Execution = Execution(server: Server, replies: seq<Reply>)

  /** The transport only delivers requests for registered characteristics. */
  predicate Addressable(e: Event) {
    e.uuid in Registered
  }

  predicate AllAddressable(events: seq<Event>) {
    forall i :: 0 <= i < |events| ==> Addressable(events[i])
  }

  /** The request uses a property its characteristic declares. The handlers do
      not check this; a transport that enforces the declared flags does. */
  predicate Permitted(e: Event) {
    && e.uuid in Registered
    && (if e.ReadEvent? then Read else Write) in Registered[e.uuid].properties
  }

  /** Handles one event. */
  function Step(c: Crypto, s: Server, e: Event): (r: (Server, Reply))
    requires Valid(s) && Addressable(e)
    ensures Valid(r.0)
  {
    match e
    case ReadEvent(uuid, nonce) =>
      var resp := ReadRequest(c, s, uuid, nonce);
      (resp.server, ReadReply(resp.reply))
    case WriteEvent(uuid, value) =>
      var resp := WriteRequest(c, s, uuid, value);
      (resp.server, WriteReply(resp.outcome))
  }

  /** Handles `events` in order, starting from `s`. */
  function Run(c: Crypto, s: Server, events: seq<Event>): (x: Execution)
    requires Valid(s) && AllAddressable(events)
    ensures Valid(x.server)
    ensures |x.replies| == |events|
    decreases |events|
  {
    if |events| == 0 then
      Execution(s, [])
    else
      var before := Run(c, s, events[..|events| - 1]);
      var (next, reply) := Step(c, before.server, events[|events| - 1]);
      Execution(next, before.replies + [reply])
  }

  /** Event `i` is a write to client-public-key whose bytes parse as a key. */
  predicate KeyWriteAt(c: Crypto, events: seq<Event>, i: int) {
    && 0 <= i < |events|
    && events[i].WriteEvent?
    && events[i].uuid == ClientPublicKeyCharUuid
    && c.loadPkcs1Der(events[i].value).Some?
  }

  /** A key write before position `n` is seen the same in the first `n` events. */
  lemma KeyWriteInPrefix(c: Crypto, events: seq<Event>, n: int, i: int)
    requires 0 <= n <= |events|
    ensures KeyWriteAt(c, events[..n], i) <==> (i < n && KeyWriteAt(c, events, i))
  {
  }

  /** Without a client key, any number of reads changes nothing: every
      encrypted-HRM read answers the sentinel and every other read the stored value. */
  lemma {:induction false} ReadsBeforeKeyChangeNothing(c: Crypto, s: Server, events: seq<Event>)
    requires Valid(s) && AllAddressable(events) && s.clientKey.None?
    requires forall i :: 0 <= i < |events| ==> events[i].ReadEvent?
    ensures Run(c, s, events).server == s
    ensures forall i :: 0 <= i < |events| && events[i].uuid == EncryptedHrmCharUuid ==>
              Run(c, s, events).replies[i] == ReadReply(Success(Some(Sentinel)))
    ensures forall i :: 0 <= i < |events| && events[i].uuid != EncryptedHrmCharUuid ==>
              Run(c, s, events).replies[i] == ReadReply(Success(s.chars[events[i].uuid].value))
    decreases |events|
  {
    if |events| > 0 {
      ReadsBeforeKeyChangeNothing(c, s, events[..|events| - 1]);
    }
  }

  /** With no parseable write to client-public-key, the client key stays as it started. */
  lemma {:induction false} KeyUnchangedWithoutKeyWrite(c: Crypto, s: Server, events: seq<Event>)
    requires Valid(s) && AllAddressable(events)
    requires forall i :: !KeyWriteAt(c, events, i)
    ensures Run(c, s, events).server.clientKey == s.clientKey
    decreases |events|
  {
    if |events| > 0 {
      var prefix := events[..|events| - 1];
      forall i
        ensures !KeyWriteAt(c, prefix, i)
      {
        assert KeyWriteAt(c, prefix, i) ==> KeyWriteAt(c, events, i);
      }
      KeyUnchangedWithoutKeyWrite(c, s, prefix);
      assert !KeyWriteAt(c, events, |events| - 1);
    }
  }

  /** Last write wins: the client key is the one parsed from the latest parseable
      write to client-public-key, however many came before it. */
  lemma {:induction false} LastKeyWriteWins(c: Crypto, s: Server, events: seq<Event>, i: int)
    requires Valid(s) && AllAddressable(events)
    requires KeyWriteAt(c, events, i)
    requires forall j :: i < j < |events| ==> !KeyWriteAt(c, events, j)
    ensures Run(c, s, events).server.clientKey == c.loadPkcs1Der(events[i].value)
    decreases |events|
  {
    var prefix := events[..|events| - 1];
    if i == |events| - 1 {
      assert Run(c, s, events).server == WriteRequest(c, Run(c, s, prefix).server, events[i].uuid, events[i].value).server;
    } else {
      KeyWriteInPrefix(c, events, |events| - 1, i);
      forall j | i < j < |prefix|
        ensures !KeyWriteAt(c, prefix, j)
      {
        KeyWriteInPrefix(c, events, |events| - 1, j);
      }
      LastKeyWriteWins(c, s, prefix, i);
      assert !KeyWriteAt(c, events, |events| - 1);
    }
  }

  /** A client key is known after a session exactly when one was known before it
      or some write in it parsed; once known, a key is never cleared. */
  lemma KeyKnownIff(c: Crypto, s: Server, events: seq<Event>)
    requires Valid(s) && AllAddressable(events)
    ensures Run(c, s, events).server.clientKey.Some? <==>
              (s.clientKey.Some? || exists i :: KeyWriteAt(c, events, i))
  {
    if exists i :: KeyWriteAt(c, events, i) {
      var i := LastKeyWrite(c, events);
      LastKeyWriteWins(c, s, events, i);
    } else {
      KeyUnchangedWithoutKeyWrite(c, s, events);
    }
  }

  /** When the last event is not a key write, some earlier one is. */
  lemma KeyWriteBeforeLast(c: Crypto, events: seq<Event>, n: int)
    requires n == |events| - 1
    requires exists i :: KeyWriteAt(c, events, i)
    requires !KeyWriteAt(c, events, n)
    ensures exists i :: KeyWriteAt(c, events[..n], i)
  {
    var i :| KeyWriteAt(c, events, i);
    KeyWriteInPrefix(c, events, n, i);
  }

  /** The index of the latest parseable write to client-public-key. */
  function LastKeyWrite(c: Crypto, events: seq<Event>): (i: int)
    requires exists i :: KeyWriteAt(c, events, i)
    ensures KeyWriteAt(c, events, i)
    ensures forall j :: i < j < |events| ==> !KeyWriteAt(c, events, j)
    decreases |events|
  {
    var n := |events| - 1;
    if KeyWriteAt(c, events, n) then n
    else
      KeyWriteBeforeLast(c, events, n);
      var i := LastKeyWrite(c, events[..n]);
      KeyWriteInPrefix(c, events, n, i);
      assert forall j :: i < j < |events| ==> !KeyWriteAt(c, events, j) by {
        forall j | i < j < n
          ensures !KeyWriteAt(c, events, j)
        {
          KeyWriteInPrefix(c, events, n, j);
        }
      }
      i
  }

  /** The server public-key characteristic never changes while every write uses
      a characteristic that declares the write property. */
  lemma {:induction false} ServerKeyCharStable(c: Crypto, s: Server, events: seq<Event>)
    requires Valid(s) && AllAddressable(events)
    requires forall i :: 0 <= i < |events| && events[i].WriteEvent? ==> Permitted(events[i])
    ensures Run(c, s, events).server.chars[MyPublicKeyCharUuid] == s.chars[MyPublicKeyCharUuid]
    decreases |events|
  {
    if |events| > 0 {
      ServerKeyCharStable(c, s, events[..|events| - 1]);
      RegisteredTable();
    }
  }

  /** After startup, under flag-respecting writes, the server public-key
      characteristic holds the DER serialisation of the server's key for good. */
  lemma PublishedKeyStable(c: Crypto, serverKey: PublicKey, events: seq<Event>)
    requires AllAddressable(events)
    requires forall i :: 0 <= i < |events| && events[i].WriteEvent? ==> Permitted(events[i])
    ensures Run(c, Startup(c, serverKey), events).server.chars[MyPublicKeyCharUuid].value
              == Some(c.savePkcs1Der(serverKey))
  {
    ServerKeyCharStable(c, Startup(c, serverKey), events);
  }

  /** The handlers only ever notify the encrypted-HRM characteristic, always with a
      value, and only append to the log. */
  lemma {:induction false} NotificationsOnlyForHrm(c: Crypto, s: Server, events: seq<Event>)
    requires Valid(s) && AllAddressable(events)
    ensures var log := Run(c, s, events).server.notified;
            && |s.notified| <= |log| && log[..|s.notified|] == s.notified
            && forall k :: |s.notified| <= k < |log| ==>
                 log[k].service == CommServiceUuid && log[k].characteristic == EncryptedHrmCharUuid && log[k].value.Some?
    decreases |events|
  {
    if |events| > 0 {
      var prefix := events[..|events| - 1];
      NotificationsOnlyForHrm(c, s, prefix);
      var mid := Run(c, s, prefix).server;
      var last := events[|events| - 1];
      var log := Step(c, mid, last).0.notified;
      assert log == Run(c, s, events).server.notified;
      assert log == mid.notified || log == mid.notified + [log[|log| - 1]] by {
        match last
        case ReadEvent(uuid, nonce) =>
        case WriteEvent(uuid, value) =>
      }
      assert log[..|mid.notified|] == mid.notified;
      assert log[..|s.notified|] == mid.notified[..|s.notified|];
    }
  }

  /** Under a conforming encryption, an encrypted-HRM read answers the sentinel
      exactly when no client key is known: ciphertexts are at least twenty octets. */
  lemma SentinelIffNoKey(c: Crypto, s: Server, nonce: Nonce)
    requires FixedLengthCiphertext(c)
    requires EncryptedHrmCharUuid in s.chars
    ensures ReadRequest(c, s, EncryptedHrmCharUuid, nonce).reply == Success(Some(Sentinel)) <==> s.clientKey.None?
  {
  }

  /** The client's flow end to end: read the server key, write a client key, read
      encrypted-HRM twice. Each read carries the payload encrypted under the client
      key with its own randomness, and each is notified. */
  lemma EndToEnd(c: Crypto, serverKey: PublicKey, clientKey: PublicKey, n1: Nonce, n2: Nonce)
    requires DerRoundTrip(c)
    requires |HelloHrm| <= MaxMessageLength(clientKey)
    ensures var events := [ReadEvent(MyPublicKeyCharUuid, 0),
                           WriteEvent(ClientPublicKeyCharUuid, c.savePkcs1Der(clientKey)),
                           ReadEvent(EncryptedHrmCharUuid, n1),
                           ReadEvent(EncryptedHrmCharUuid, n2)];
            var x := Run(c, Startup(c, serverKey), events);
            && x.replies == [ReadReply(Success(Some(c.savePkcs1Der(serverKey)))),
                             WriteReply(Pass),
                             ReadReply(Success(Some(c.encryptBlock(clientKey, HelloHrm, n1)))),
                             ReadReply(Success(Some(c.encryptBlock(clientKey, HelloHrm, n2))))]
            && x.server.clientKey == Some(clientKey)
            && x.server.notified[1..] == [Notification(CommServiceUuid, EncryptedHrmCharUuid, Some(c.encryptBlock(clientKey, HelloHrm, n1))),
                                          Notification(CommServiceUuid, EncryptedHrmCharUuid, Some(c.encryptBlock(clientKey, HelloHrm, n2)))]
  {
    var events := [ReadEvent(MyPublicKeyCharUuid, 0),
                   WriteEvent(ClientPublicKeyCharUuid, c.savePkcs1Der(clientKey)),
                   ReadEvent(EncryptedHrmCharUuid, n1),
                   ReadEvent(EncryptedHrmCharUuid, n2)];
    var s0 := Startup(c, serverKey);
    UuidsDistinct();
    assert c.loadPkcs1Der(c.savePkcs1Der(clientKey)) == Some(clientKey);
    assert events[..1][..0] == [];
    assert Run(c, s0, events[..1][..0]) == Execution(s0, []);
    var x1 := Run(c, s0, events[..1]);
    assert x1.server == ReadRequest(c, s0, MyPublicKeyCharUuid, 0).server;
    assert x1.server == s0;
    assert events[..2][..1] == events[..1];
    var x2 := Run(c, s0, events[..2]);
    assert x2.server.clientKey == Some(clientKey);
    assert events[..3][..2] == events[..2];
    var x3 := Run(c, s0, events[..3]);
    assert events[..4][..3] == events[..3];
    assert events[..4] == events;
  }

  /** The reply to event `j` is what the server answers in the state the first `j` events left. */
  lemma {:induction false} ReplyAt(c: Crypto, s: Server, events: seq<Event>, j: int)
    requires Valid(s) && AllAddressable(events) && 0 <= j < |events|
    ensures AllAddressable(events[..j])
    ensures Run(c, s, events).replies[j] == Step(c, Run(c, s, events[..j]).server, events[j]).1
    decreases |events|
  {
    var prefix := events[..|events| - 1];
    assert prefix[..j] == events[..j];
    if j < |events| - 1 {
      ReplyAt(c, s, prefix, j);
      var before := Run(c, s, prefix);
      var last := Step(c, before.server, events[|events| - 1]);
      assert Run(c, s, events).replies == before.replies + [last.1];
    }
  }

  /** Within a session that starts with no client key, an encrypted-HRM read
      answers the sentinel exactly when no earlier write parsed as a key: the
      sentinel comes before the exchange and ciphertext after it. */
  lemma SentinelExactlyBeforeKeyWrite(c: Crypto, s: Server, events: seq<Event>, j: int)
    requires Valid(s) && AllAddressable(events) && s.clientKey.None? && FixedLengthCiphertext(c)
    requires 0 <= j < |events| && events[j].ReadEvent? && events[j].uuid == EncryptedHrmCharUuid
    ensures Run(c, s, events).replies[j] == ReadReply(Success(Some(Sentinel))) <==>
              forall i :: 0 <= i < j ==> !KeyWriteAt(c, events, i)
  {
    ReplyAt(c, s, events, j);
    var mid := Run(c, s, events[..j]).server;
    KeyKnownIff(c, s, events[..j]);
    SentinelIffNoKey(c, mid, events[j].nonce);
    forall i
      ensures KeyWriteAt(c, events[..j], i) <==> (0 <= i < j && KeyWriteAt(c, events, i))
    {
      KeyWriteInPrefix(c, events, j, i);
    }
  }
}

/** The server's GATT request handling: a key-exchange machine with two states,
    "no client key yet" and "client key known", driven by the read and write
    handlers the transport calls, plus the state `run` sets up before serving. */
module BleServer {
  import opened Wrappers
  import opened Octets
  import opened Rsa
  import opened Gatt

  /** One `update_value` call: the value subscribers of `characteristic` were sent. */
  datatype Notification = Notification(service: Uuid, characteristic: Uuid, value: Option<Bytes>)

  /** The server: the characteristic table, the client's public key if one was
      parsed, and every notification sent so far, oldest first. */
  datatype Server = Server(chars: map<Uuid, Characteristic>, clientKey: Option<PublicKey>, notified: seq<Notification>)

  /** What a read handler call produces: the next state and the value returned, or the exception. */
  datatype ReadResponse = ReadResponse(server: Server, reply: Result<Option<Bytes>, CryptoError>)

  /** What a write handler call produces: the next state and whether it raised; a write returns no value. */
  datatype WriteResponse = WriteResponse(server: Server, outcome: Outcome<CryptoError>)

  /** Returned by an encrypted-HRM read while no client key is known. */
  const Sentinel: Bytes := [0x3D, 0x93]

  /** The fixed payload `b"Hello HRM"` the encrypted read carries. */
  const HelloHrm: Bytes := [0x48, 0x65, 0x6C, 0x6C, 0x6F, 0x20, 0x48, 0x52, 0x4D]

  /** The server keeps the registered characteristics and their flags; only values change. */
  ghost predicate Valid(s: Server) {
    && s.chars.Keys == Registered.Keys
    && forall u :: u in s.chars ==>
         s.chars[u].properties == Registered[u].properties && s.chars[u].permissions == Registered[u].permissions
  }

  /** Stores `v` as the current value of characteristic `uuid`. */
  function SetValue(s: Server, uuid: Uuid, v: Option<Bytes>): (r: Server)
    requires uuid in s.chars
    ensures r.chars.Keys == s.chars.Keys && r.chars[uuid].value == v
    ensures r.chars[uuid].properties == s.chars[uuid].properties
    ensures r.chars[uuid].permissions == s.chars[uuid].permissions
    ensures forall u :: u in s.chars && u != uuid ==> r.chars[u] == s.chars[u]
    ensures r.clientKey == s.clientKey && r.notified == s.notified
  {
    s.(chars := s.chars[uuid := s.chars[uuid].(value := v)])
  }

  /** `server.update_value`: pushes the current value of `uuid` to subscribers. */
  function UpdateValue(s: Server, service: Uuid, uuid: Uuid): (r: Server)
    requires uuid in s.chars
    ensures r.chars == s.chars && r.clientKey == s.clientKey
    ensures r.notified == s.notified + [Notification(service, uuid, s.chars[uuid].value)]
  {
    s.(notified := s.notified + [Notification(service, uuid, s.chars[uuid].value)])
  }

  /** The state in which `run` starts serving: the characteristics registered,
      the server's DER public key stored in its characteristic and notified once,
      and no client key. */
  function Startup(c: Crypto, serverKey: PublicKey): (r: Server)
    ensures Valid(r) && r.clientKey == None
    ensures r.chars[MyPublicKeyCharUuid].value == Some(c.savePkcs1Der(serverKey))
    ensures r.chars[EncryptedHrmCharUuid].value == None
    ensures r.chars[ClientPublicKeyCharUuid].value == None
    ensures r.notified == [Notification(CommServiceUuid, MyPublicKeyCharUuid, Some(c.savePkcs1Der(serverKey)))]
  {
    var registered := Server(Registered, None, []);
    var published := SetValue(registered, MyPublicKeyCharUuid, Some(c.savePkcs1Der(serverKey)));
    UpdateValue(published, CommServiceUuid, MyPublicKeyCharUuid)
  }

  /** `read_request`. Reading encrypted-HRM without a client key gives the sentinel;
      with one, it encrypts the payload, stores and notifies the ciphertext, and
      returns it. Every other characteristic returns its stored value. */
  function ReadRequest(c: Crypto, s: Server, uuid: Uuid, nonce: Nonce): (r: ReadResponse)
    requires uuid in s.chars
    ensures Valid(s) ==> Valid(r.server)
    ensures r.server.clientKey == s.clientKey
    ensures r.server.chars.Keys == s.chars.Keys
    ensures forall u :: u in s.chars && u != EncryptedHrmCharUuid ==> r.server.chars[u] == s.chars[u]
    ensures uuid != EncryptedHrmCharUuid ==> r.server == s && r.reply == Success(s.chars[uuid].value)
    ensures uuid == EncryptedHrmCharUuid && s.clientKey.None? ==>
              r.server == s && r.reply == Success(Some(Sentinel))
    ensures uuid == EncryptedHrmCharUuid && s.clientKey.Some? && |HelloHrm| > MaxMessageLength(s.clientKey.value) ==>
              r.server == s && r.reply == Failure(MessageTooLong(|HelloHrm|, MaxMessageLength(s.clientKey.value)))
    ensures uuid == EncryptedHrmCharUuid && s.clientKey.Some? && |HelloHrm| <= MaxMessageLength(s.clientKey.value) ==>
              var ct := c.encryptBlock(s.clientKey.value, HelloHrm, nonce);
              && r.reply == Success(Some(ct))
              && r.server.chars[uuid].value == Some(ct)
              && r.server.notified == s.notified + [Notification(CommServiceUuid, uuid, Some(ct))]
  {
    if uuid != EncryptedHrmCharUuid then
      ReadResponse(s, Success(s.chars[uuid].value))
    else
      match s.clientKey
      case None => ReadResponse(s, Success(Some(Sentinel)))
      case Some(key) =>
        match Encrypt(c, key, HelloHrm, nonce)
        case Failure(e) => ReadResponse(s, Failure(e))
        case Success(ciphertext) =>
          var stored := SetValue(s, EncryptedHrmCharUuid, Some(ciphertext));
          var sent := UpdateValue(stored, CommServiceUuid, EncryptedHrmCharUuid);
          ReadResponse(sent, Success(sent.chars[uuid].value))
  }

  /** `write_request`. The written bytes are stored first, whatever the target.
      A write to client-public-key then parses them: on success the parsed key
      replaces any earlier one; on failure the key stays as it was and the
      handler raises. Nothing is notified and no value is returned. */
  function WriteRequest(c: Crypto, s: Server, uuid: Uuid, value: Bytes): (r: WriteResponse)
    requires uuid in s.chars
    ensures Valid(s) ==> Valid(r.server)
    ensures r.server.chars.Keys == s.chars.Keys
    ensures r.server.chars[uuid] == s.chars[uuid].(value := Some(value))
    ensures forall u :: u in s.chars && u != uuid ==> r.server.chars[u] == s.chars[u]
    ensures r.server.notified == s.notified
    ensures uuid != ClientPublicKeyCharUuid ==> r.server.clientKey == s.clientKey && r.outcome == Pass
    ensures uuid == ClientPublicKeyCharUuid && c.loadPkcs1Der(value).Some? ==>
              r.server.clientKey == c.loadPkcs1Der(value) && r.outcome == Pass
    ensures uuid == ClientPublicKeyCharUuid && c.loadPkcs1Der(value).None? ==>
              r.server.clientKey == s.clientKey && r.outcome == Fail(KeyParseError)
  {
    var stored := SetValue(s, uuid, Some(value));
    if uuid == ClientPublicKeyCharUuid then
      match c.loadPkcs1Der(value)
      case None => WriteResponse(stored, Fail(KeyParseError))
      case Some(key) => WriteResponse(stored.(clientKey := Some(key)), Pass)
    else
      WriteResponse(stored, Pass)
  }
}

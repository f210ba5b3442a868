/** The GATT service the server registers: one service with three characteristics,
    each with its property flags, its attribute permissions and a current value. */
module Gatt {
  import opened Wrappers
  import opened Octets

  /** A characteristic or service UUID, written in lower case as the server compares them. */
  type Uuid = string

  const CommServiceUuid: Uuid := "a07498ca-ad5b-474e-940d-16f1fbe7e8cd"
  const MyPublicKeyCharUuid: Uuid := "51ff12bb-3ed8-46e5-b4f9-d64e2fec021b"
  const EncryptedHrmCharUuid: Uuid := "a07498ca-ad5b-474e-941d-16f1fbe7e8cd"
  const ClientPublicKeyCharUuid: Uuid := "a07498ca-ad5b-474e-942d-16f1fbe7e8cd"

  /** GATT characteristic properties the server uses. */
  datatype Property = Read | Write | Notify

  /** GATT attribute permissions the server uses. */
  datatype Permission = Readable | Writeable

  /** A registered characteristic; `value` is `None` until something stores one. */
  datatype Characteristic = Characteristic(properties: set<Property>, permissions: set<Permission>, value: Option<Bytes>)

  /** The characteristics as `run` registers them, before any value is stored. */
  const Registered: map<Uuid, Characteristic> := map[
    MyPublicKeyCharUuid := Characteristic({Read, Notify}, {Readable}, None),
    EncryptedHrmCharUuid := Characteristic({Read, Notify}, {Readable}, None),
    ClientPublicKeyCharUuid := Characteristic({Write}, {Writeable}, None)
  ]

  /** The three characteristic UUIDs and the service UUID are pairwise distinct. */
  lemma UuidsDistinct()
    ensures MyPublicKeyCharUuid != EncryptedHrmCharUuid
    ensures MyPublicKeyCharUuid != ClientPublicKeyCharUuid
    ensures EncryptedHrmCharUuid != ClientPublicKeyCharUuid
    ensures CommServiceUuid !in Registered
  {
  }

  /** The registered table: exactly three characteristics; only the client-key one accepts writes. */
  lemma RegisteredTable()
    ensures Registered.Keys == {MyPublicKeyCharUuid, EncryptedHrmCharUuid, ClientPublicKeyCharUuid}
    ensures forall u :: u in Registered ==> Registered[u].value.None?
    ensures forall u :: u in Registered ==> (Write in Registered[u].properties <==> u == ClientPublicKeyCharUuid)
    ensures forall u :: u in Registered ==> (Read in Registered[u].properties <==> u != ClientPublicKeyCharUuid)
  {
  }
}

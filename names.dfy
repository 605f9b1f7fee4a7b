/**
 The identities a metadata server keys its sessions by. `entity_name_t`,
 `entity_inst_t` and `metareqid_t` are declared in mdstypes.h, which is not
 part of this model: a name is abstracted as a (kind, number) pair, an
 address as an opaque number, and a request id as the requesting name plus
 its transaction id.
 */
module EntityNames {

  /** The kind of peer a name denotes. `Unset` is the kind of a
      default-constructed name, one that was never assigned. */
  datatype EntityKind = Unset | Mon | Mds | Osd | Client | Admin

  datatype EntityName = EntityName(kind: EntityKind, num: int)
  {
    predicate IsClient() { kind == Client }
  }

  /** A name together with the network address it currently speaks from. */
  datatype EntityInst = EntityInst(name: EntityName, addr: nat)

  /** A client request: who sent it and its transaction id (`tid_t`). */
  datatype MetaReqId = MetaReqId(name: EntityName, tid: nat)

  /** The name of client number `n` (`entity_name_t::CLIENT(n)`). */
  function ClientName(n: int): (w: EntityName)
    ensures w.IsClient() && w.num == n
  {
    EntityName(Client, n)
  }

  /** The value of a default-constructed `entity_inst_t`. */
  const UnsetInst: EntityInst := EntityInst(EntityName(Unset, 0), 0)
}

/** The persistence adapter: the whole collection is kept as one serialized value
    under one key of the host's key-value store, and is read and rewritten whole. */
module Storage {
  import opened Users

  /** What the host holds under the key, as the adapter can tell after parsing:
      nothing (the key is missing, or holds the empty string), a value that does
      not parse, or a parsed collection. */
  datatype Slot = Absent | Unparsable | Parsed(users: seq<User>)

  /** The collection a read yields: unreadable data reads as empty. */
  function Loaded(slot: Slot): seq<User> {
    if slot.Parsed? then slot.users else []
  }

  class UserStore {
    var slot: Slot

    constructor (initial: Slot)
      ensures slot == initial
    {
      slot := initial;
    }

    /** Reads the collection; a missing key and a parse failure both read as the
        empty collection, and neither raises. */
    method ObterUsuarios() returns (us: seq<User>)
      ensures slot.Parsed? ==> us == slot.users
      ensures slot.Absent? ==> us == []
      ensures slot.Unparsable? ==> us == []
    {
      match slot
      case Absent => us := [];
      case Unparsable => us := [];
      case Parsed(users) => us := users;
    }

    /** Writes the whole collection. `hostRejects` is the host's answer to the
        write (a full quota, say): then nothing is stored and the result is false.
        Nothing is raised either way. */
    method SalvarUsuarios(us: seq<User>, hostRejects: bool) returns (ok: bool)
      modifies this
      ensures ok == !hostRejects
      ensures ok ==> slot == Parsed(us) && Loaded(slot) == us
      ensures !ok ==> slot == old(slot)
    {
      if hostRejects {
        ok := false;
      } else {
        slot := Parsed(us);
        ok := true;
      }
    }

    /** The first stored record with the given id, or None, by a linear scan of
        the collection read from the store. */
    method BuscarUsuarioPorId(id: int) returns (r: Option<User>)
      ensures var us := Loaded(slot);
              var i := FindIndexById(us, id);
              r == if i < 0 then None else Some(us[i])
      ensures r.Some? ==> r.value.id == id && r.value in Loaded(slot)
      ensures r.None? <==> forall k :: 0 <= k < |Loaded(slot)| ==> Loaded(slot)[k].id != id
    {
      var us := ObterUsuarios();
      var k := 0;
      while k < |us|
        invariant 0 <= k <= |us|
        invariant forall m :: 0 <= m < k ==> us[m].id != id
      {
        if us[k].id == id {
          return Some(us[k]);
        }
        k := k + 1;
      }
      return None;
    }
  }

  /** Writing back what was just read leaves what a read yields unchanged. */
  lemma ResaveKeepsContents(slot: Slot)
    ensures Loaded(Parsed(Loaded(slot))) == Loaded(slot)
  {
  }
}

/** The visited set both recursive group searches share, with its two caps. */
module Footprint {
  import opened Directory

  /** DNs that may still enter a visited set of this size: the measure of both recursions. */
  function Room(size: nat): nat {
    if size < MAX_LDAP_GRP_HASH_SIZE then MAX_LDAP_GRP_HASH_SIZE - size else 0
  }

  /** do_search_user_group_check_hash */
  predicate Accepts(seen: set<Dn>, name: Dn, level: nat) {
    |seen| < MAX_LDAP_GRP_HASH_SIZE && name !in seen && level <= MAX_TREE_DEPTH
  }

  /** A GHashTable used as a set of DNs; `refused` records that a cap turned a fresh DN away. */
  class NameTable {
    var names: set<Dn>
    ghost var refused: bool

    constructor ()
      ensures names == {} && !refused
    {
      names, refused := {}, false;
    }

    method Check(name: Dn, level: nat) returns (ok: bool)
      modifies this`refused
      ensures ok == Accepts(names, name, level)
      ensures refused == (old(refused) || (!ok && name !in names))
    {
      if |names| >= MAX_LDAP_GRP_HASH_SIZE {
        refused := refused || name !in names;
        return false;
      }
      if name in names { return false; }
      if level > MAX_TREE_DEPTH {
        refused := true;
        return false;
      }
      return true;
    }
  }
}

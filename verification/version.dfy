/** `version` of the SSH filesystem handler: the capabilities it reports. */
module Capabilities {
  /** The kinds of request a server may support. Only the three this handler withholds are
      named; the others are carried by name. */
  datatype CapabilityKind = Search | CancelSearch | SetPermissions | Named(name: string)

  /** Not offered over SSH: searching has no implementation here, and setting permissions is
      broken in the SFTP library. */
  predicate Unsupported(k: CapabilityKind) {
    k == Search || k == CancelSearch || k == SetPermissions
  }

  /** `Capabilities::take`: removes a kind, reporting whether it was present. Afterwards the
      kind is gone, nothing else is, and putting back what was taken restores the set. */
  method Take(caps: set<CapabilityKind>, k: CapabilityKind) returns (rest: set<CapabilityKind>, taken: bool)
    ensures k !in rest && rest <= caps
    ensures caps == if taken then rest + {k} else rest
    ensures |rest| == if taken then |caps| - 1 else |caps|
  {
    taken := k in caps;
    rest := caps - {k};
  }

  /** `version`: every capability of the full set except the unsupported ones. */
  method Version(all: set<CapabilityKind>) returns (capabilities: set<CapabilityKind>)
    ensures forall k :: k in capabilities <==> k in all && !Unsupported(k)
  {
    capabilities := all;
    var taken;
    capabilities, taken := Take(capabilities, Search);
    capabilities, taken := Take(capabilities, CancelSearch);
    capabilities, taken := Take(capabilities, SetPermissions);
  }
}

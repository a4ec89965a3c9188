/** Grants, roles and boundaries, as they are stored (src/provablyfine/api/model/grant.py).

    A nullable list keeps the source's distinction: `None` means every value, `[]` means no value. */
module Grants {
  import opened Wrappers

  /** A bound on the length of a session. A null bound means no bound. */
  datatype Ttl = Seconds(s: int) | Unbounded

  datatype Capability = Shell | Pty | UserRc | AgentForwarding | X11Forwarding | PortForwarding

  datatype SshPermission = SshPermission(
    usernames: Option<seq<string>>,
    capabilities: Option<seq<Capability>>,
    commands: Option<seq<string>>,
    ttl: Ttl)

  datatype TripletFilter = TripletFilter(
    id: Option<int>,
    tags: Option<seq<int>>,
    boundaries: Option<seq<int>>)

  datatype BastionUpdate = BastionUpdate(url: bool, sshProxyJump: bool, tagList: bool)

  datatype BastionPermission = BastionPermission(
    create: bool, read: bool, delete: bool, update: Option<BastionUpdate>)

  datatype GrantKind =
    | BoundaryKind | TagKind | RoleKind | IdentityKind | TenantKind | AuthKind | AuditLogKind | LiveKind

  /** The grant types that nothing here looks into keep their serialized form as `body`. */
  datatype Grant =
    | SshGrant(filter: TripletFilter, permission: SshPermission)
    | BastionGrant(id: Option<int>, access: BastionPermission)
    | OtherGrant(kind: GrantKind, body: string)

  datatype Role = Role(id: int, name: string, description: string, grants: seq<Grant>)

  datatype Boundary = Boundary(
    id: int, name: string, description: string,
    ceiling: Option<seq<Grant>>,
    denied: seq<Grant>)
}

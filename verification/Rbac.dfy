/** Roles, permissions and data scopes: `packages/contracts/src/rbac.ts`. */
module Rbac {
  import opened Text

  datatype Permission =
    | LeadRead | LeadCreate | LeadUpdate | LeadDelete | LeadAssign | LeadConvert | LeadExport | LeadImport
    | CustomerRead | CustomerCreate | CustomerUpdate | CustomerExport
    | ActivityRead | ActivityCreate | TaskRead | TaskCreate | TaskUpdate
    | VisitRead | VisitCreate | VisitUpdate
    | PartnerRead | PartnerCreate | PartnerUpdate | PartnerPayoutRead
    | CampaignRead | CampaignCreate | CampaignUpdate | EventView
    | AnalyticsSales | AnalyticsMarketing | AnalyticsPartner | AnalyticsManagement
    | UserRead | UserCreate | UserUpdate | RoleManage | AuditRead | SystemConfigure

  datatype Role = SuperAdmin | Management | Operations | Marketing | SalesManager | SalesExecutive | Partner | Customer

  /** Which permissions a role bundles; a role the table does not list bundles none. */
  type Matrix = Role -> seq<Permission>

  function EveryPermission(): seq<Permission> {
    [LeadRead, LeadCreate, LeadUpdate, LeadDelete, LeadAssign, LeadConvert, LeadExport, LeadImport,
     CustomerRead, CustomerCreate, CustomerUpdate, CustomerExport,
     ActivityRead, ActivityCreate, TaskRead, TaskCreate, TaskUpdate, VisitRead, VisitCreate, VisitUpdate,
     PartnerRead, PartnerCreate, PartnerUpdate, PartnerPayoutRead,
     CampaignRead, CampaignCreate, CampaignUpdate, EventView,
     AnalyticsSales, AnalyticsMarketing, AnalyticsPartner, AnalyticsManagement,
     UserRead, UserCreate, UserUpdate, RoleManage, AuditRead, SystemConfigure]
  }

  /** `ROLE_PERMISSIONS`. */
  function Shipped(role: Role): seq<Permission> {
    match role
    case SuperAdmin => EveryPermission()
    case Management =>
      [LeadRead, LeadExport, CustomerRead, CustomerExport, ActivityRead, TaskRead, VisitRead, PartnerRead,
       PartnerPayoutRead, CampaignRead, EventView, AnalyticsSales, AnalyticsMarketing, AnalyticsPartner,
       AnalyticsManagement, AuditRead]
    case Operations =>
      [LeadRead, LeadUpdate, LeadImport, CustomerRead, CustomerCreate, CustomerUpdate, ActivityRead,
       ActivityCreate, TaskRead, TaskCreate, TaskUpdate, PartnerRead, PartnerUpdate, AnalyticsSales, UserRead]
    case Marketing =>
      [LeadRead, LeadCreate, LeadImport, LeadExport, CustomerRead, CampaignRead, CampaignCreate, CampaignUpdate,
       EventView, AnalyticsMarketing, AnalyticsSales]
    case SalesManager =>
      [LeadRead, LeadCreate, LeadUpdate, LeadAssign, LeadConvert, LeadExport, LeadImport, CustomerRead,
       CustomerUpdate, ActivityRead, ActivityCreate, TaskRead, TaskCreate, TaskUpdate, VisitRead, VisitCreate,
       VisitUpdate, PartnerRead, AnalyticsSales, UserRead, UserCreate]
    case SalesExecutive =>
      [LeadRead, LeadCreate, LeadUpdate, LeadConvert, CustomerRead, CustomerUpdate, ActivityRead, ActivityCreate,
       TaskRead, TaskCreate, TaskUpdate, VisitRead, VisitCreate, VisitUpdate, AnalyticsSales]
    case Partner =>
      [LeadRead, LeadCreate, CustomerRead, ActivityRead, ActivityCreate, PartnerPayoutRead, AnalyticsPartner]
    case Customer => [CustomerRead, ActivityRead, TaskRead]
  }

  /** Everything some role of the list bundles. */
  ghost function Granted(matrix: Matrix, roles: seq<Role>): set<Permission> {
    set role, p | role in roles && p in matrix(role) :: p
  }

  /** The union, without repetitions. */
  method PermissionsForRoles(matrix: Matrix, roles: seq<Role>) returns (permissions: seq<Permission>)
    ensures forall p :: p in permissions <==> p in Granted(matrix, roles)
    ensures Distinct(permissions)
  {
    permissions := [];
    var i := 0;
    while i < |roles|
      invariant i <= |roles|
      invariant forall p :: p in permissions <==> p in Granted(matrix, roles[..i])
      invariant Distinct(permissions)
    {
      var bundle := matrix(roles[i]);
      var earlier := permissions;
      var j := 0;
      while j < |bundle|
        invariant j <= |bundle|
        invariant forall p :: p in permissions <==> p in earlier || p in bundle[..j]
        invariant Distinct(permissions)
      {
        if bundle[j] !in permissions {
          permissions := permissions + [bundle[j]];
        }
        j := j + 1;
      }
      assert bundle[..j] == bundle;
      GrantedSnoc(matrix, roles[..i], roles[i]);
      assert roles[..i + 1] == roles[..i] + [roles[i]];
      i := i + 1;
    }
    assert roles[..i] == roles;
  }

  lemma GrantedSnoc(matrix: Matrix, roles: seq<Role>, role: Role)
    ensures forall p :: p in Granted(matrix, roles + [role]) <==> p in Granted(matrix, roles) || p in matrix(role)
  {
    var more := roles + [role];
    assert role in more && forall r <- roles :: r in more;
    assert forall r <- more :: r in roles || r == role;
  }

  // ---------------------------------------------------------------------------
  // Data scopes
  // ---------------------------------------------------------------------------

  datatype Scope = All | Zone | Region | Branch | Team | Self

  /** Position in `DATA_SCOPES`: the smaller the broader. */
  function Breadth(scope: Scope): nat {
    match scope
    case All => 0
    case Zone => 1
    case Region => 2
    case Branch => 3
    case Team => 4
    case Self => 5
  }

  predicate Broader(a: Scope, b: Scope) {
    Breadth(a) < Breadth(b)
  }

  function DefaultScope(role: Role): Scope {
    match role
    case SuperAdmin | Management | Operations | Marketing => All
    case SalesManager => Team
    case SalesExecutive | Partner | Customer => Self
  }

  /** The `reduce` over the roles, starting from `SELF`. */
  function BroadestDefault(roles: seq<Role>): Scope {
    if roles == [] then Self
    else
      var widest := BroadestDefault(roles[..|roles| - 1]);
      var scope := DefaultScope(roles[|roles| - 1]);
      if Broader(scope, widest) then scope else widest
  }

  function EffectiveScope(roles: seq<Role>, requested: Option<Scope>): Scope {
    var broadest := BroadestDefault(roles);
    if requested.None? then broadest
    else if Broader(requested.value, broadest) then broadest
    else requested.value
  }

  /** No role's default is broader than the fold, which is the default of one of them or `SELF`. */
  lemma {:induction false} BroadestIsBroadest(roles: seq<Role>)
    ensures forall role <- roles :: !Broader(DefaultScope(role), BroadestDefault(roles))
    ensures BroadestDefault(roles) == Self || exists role <- roles :: DefaultScope(role) == BroadestDefault(roles)
  {
    if roles != [] {
      var earlier, last := roles[..|roles| - 1], roles[|roles| - 1];
      BroadestIsBroadest(earlier);
      assert forall role <- roles :: role in earlier || role == last;
      assert last in roles;
    }
  }
}

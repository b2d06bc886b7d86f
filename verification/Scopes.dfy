/** Roles, permission scopes and their definitions (api/roles.go, api/scopes_namespace.go, api/scopes_user.go). */
module Scopes {
  import opened Common

  /** A Go string type; anything but the four known names is unknown. */
  datatype Role = NoRole | Contributor | Editor | Manager | UnknownRole(name: string) {
    function Rank(): int {
      match this
      case Contributor => 1
      case Editor => 2
      case Manager => 3
      case NoRole => 0
      case UnknownRole(_) => -1
    }

    /** Despite its name in the source, less than or equal. */
    predicate LessThan(other: Role) {
      Rank() <= other.Rank()
    }

    predicate Known() {
      !UnknownRole?
    }
  }

  datatype NamespaceScope =
    | GetNamespace | UpdateNamespace
    | ListNamespaceMounts
    | ListNamespaceRoles
    | GetNamespaceRoleSelf | GetNamespaceRoleOther
    | SetNamespaceRoleSelf | SetNamespaceRoleOther
    | RemoveNamespaceRoleSelf | RemoveNamespaceRoleOther
    | ListResources | CreateResource | CreateResourceBatch
    | GetResource | UpdateResource
    | SeeDeletedResource
    | SeeInNamespaceList
    | UndefinedNamespaceScope(name: string)

  datatype NamespaceScopeDefinition =
    NamespaceScopeDefinition(anonymousMode: bool, allowUnauthenticated: bool, minRole: Role, requireSuperuser: bool)

  function DefinitionOf(scope: NamespaceScope): Option<NamespaceScopeDefinition> {
    match scope
    case GetNamespace              => Some(NamespaceScopeDefinition(true, true, NoRole, false))
    case UpdateNamespace           => Some(NamespaceScopeDefinition(true, false, Manager, false))
    case ListNamespaceMounts       => Some(NamespaceScopeDefinition(true, false, Contributor, false))
    case ListNamespaceRoles        => Some(NamespaceScopeDefinition(false, false, Manager, false))
    case GetNamespaceRoleSelf      => Some(NamespaceScopeDefinition(false, false, NoRole, false))
    case GetNamespaceRoleOther     => Some(NamespaceScopeDefinition(false, false, Manager, false))
    case SetNamespaceRoleSelf      => Some(NamespaceScopeDefinition(false, false, NoRole, true))
    case SetNamespaceRoleOther     => Some(NamespaceScopeDefinition(false, false, Manager, false))
    case RemoveNamespaceRoleSelf   => Some(NamespaceScopeDefinition(false, false, NoRole, true))
    case RemoveNamespaceRoleOther  => Some(NamespaceScopeDefinition(false, false, Manager, false))
    case ListResources             => Some(NamespaceScopeDefinition(true, false, Editor, false))
    case CreateResource            => Some(NamespaceScopeDefinition(true, false, Contributor, false))
    case CreateResourceBatch       => Some(NamespaceScopeDefinition(true, false, Contributor, false))
    case GetResource               => Some(NamespaceScopeDefinition(true, true, NoRole, false))
    case UpdateResource            => Some(NamespaceScopeDefinition(true, false, Editor, false))
    case SeeDeletedResource        => Some(NamespaceScopeDefinition(true, false, Editor, false))
    case SeeInNamespaceList        => Some(NamespaceScopeDefinition(true, false, Contributor, false))
    case UndefinedNamespaceScope(_) => None
  }

  /** The user scopes of endpoints that change stored state, and of impersonation. */
  datatype UserScope =
    | CreateNamespaceScope
    | SetMountScope | DeleteMountScope
    | SetMountGrantScope | DeleteMountGrantScope
    | UpdateUserScope | CreateUserScope | DeleteUserScope
    | IssueUserKeyScope | SetUserPasswordScope | RevokeUserKeyScope
    | ImpersonateScope
    | UndefinedUserScope(name: string)

  datatype UserScopeDefinition = UserScopeDefinition(anonymousMode: bool, allowUnauthenticated: bool, requireSuperuser: bool)

  function UserDefinitionOf(scope: UserScope): Option<UserScopeDefinition> {
    match scope
    case CreateNamespaceScope  => Some(UserScopeDefinition(true, false, false))
    case SetMountScope         => Some(UserScopeDefinition(true, false, false))
    case DeleteMountScope      => Some(UserScopeDefinition(true, false, false))
    case SetMountGrantScope    => Some(UserScopeDefinition(false, false, true))
    case DeleteMountGrantScope => Some(UserScopeDefinition(false, false, true))
    case UpdateUserScope       => Some(UserScopeDefinition(false, false, true))
    case CreateUserScope       => Some(UserScopeDefinition(false, false, true))
    case DeleteUserScope       => Some(UserScopeDefinition(false, false, true))
    case IssueUserKeyScope     => Some(UserScopeDefinition(false, false, false))
    case SetUserPasswordScope  => Some(UserScopeDefinition(false, false, false))
    case RevokeUserKeyScope    => Some(UserScopeDefinition(false, false, false))
    case ImpersonateScope      => Some(UserScopeDefinition(false, false, true))
    case UndefinedUserScope(_) => None
  }
}

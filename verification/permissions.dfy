/** The workspace role checks. `None` stands for "no role" (not signed in, or not a member). */
module Permissions {
  import opened Wrappers

  datatype Role = Owner | Editor | Viewer

  function CanEdit(role: Option<Role>): (r: bool)
  {
    role == Some(Owner) || role == Some(Editor)
  }

  function CanManageMembers(role: Option<Role>): (r: bool)
  {
    role == Some(Owner)
  }

  /** The order the two checks induce: no role, viewer, editor, owner. */
  function Privilege(role: Option<Role>): (r: nat)
  {
    match role
    case None => 0
    case Some(Viewer) => 1
    case Some(Editor) => 2
    case Some(Owner) => 3
  }

  /** Editing is allowed exactly from editor upward. */
  lemma CanEditFromEditorUp(role: Option<Role>)
    ensures CanEdit(role) <==> Privilege(role) >= Privilege(Some(Editor))
  {
  }

  /** Managing members is allowed exactly to the owner, the top of the order. */
  lemma CanManageMembersOnlyOwner(role: Option<Role>)
    ensures CanManageMembers(role) <==> role == Some(Owner)
    ensures CanManageMembers(role) <==> Privilege(role) >= Privilege(Some(Owner))
  {
  }

  /** Whoever may manage members may edit; a viewer and no role may do neither. */
  lemma ManageImpliesEdit(role: Option<Role>)
    ensures CanManageMembers(role) ==> CanEdit(role)
    ensures CanEdit(Some(Owner)) && CanEdit(Some(Editor))
    ensures !CanEdit(Some(Viewer)) && !CanManageMembers(Some(Viewer))
    ensures !CanEdit(None) && !CanManageMembers(None)
  {
  }

  /** Both checks are monotone in the order. */
  lemma ChecksMonotone(lower: Option<Role>, higher: Option<Role>)
    requires Privilege(lower) <= Privilege(higher)
    ensures CanEdit(lower) ==> CanEdit(higher)
    ensures CanManageMembers(lower) ==> CanManageMembers(higher)
  {
  }
}

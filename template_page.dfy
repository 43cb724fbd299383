/**
 * The template page's access predicates: who is offered editing, who is
 * offered filling in a form, and when the login button shows.
 */
module TemplatePage {
  import opened Wrappers
  import opened Js
  import opened Store
  import TemplateRoutes

  /** `template.authorId` on the object the server sends: it has no such property (the owner is `ownerId`). */
  function AuthorIdProperty(t: Template): JsValue {
    Undefined
  }

  /** canEdit as written: a logged-in user who is an ADMIN or whose id equals `template.authorId`. */
  predicate CanEditAsWritten(user: Option<Caller>, t: Template)
    ensures CanEditAsWritten(user, t) ==> user.Some?
    ensures user.Some? && user.value.role == "ADMIN" ==> CanEditAsWritten(user, t)
  {
    user.Some? && (user.value.role == "ADMIN" || Num(user.value.id) == AuthorIdProperty(t))
  }

  /** As written, only an ADMIN is offered editing; the template's own owner is not, though the server lets the owner change it. */
  lemma OwnerNotOfferedEditing(user: Caller, t: Template)
    requires user.role != "ADMIN" && t.ownerId == user.id
    ensures !CanEditAsWritten(Some(user), t)
    ensures TemplateRoutes.MayManage(t, user)
  {
  }

  /** canEdit comparing the owner the server records. */
  predicate CanEdit(user: Option<Caller>, t: Template)
    ensures CanEdit(user, t) ==> user.Some?
    ensures user.Some? && user.value.role == "ADMIN" ==> CanEdit(user, t)
  {
    user.Some? && (user.value.role == "ADMIN" || user.value.id == t.ownerId)
  }

  /** The page offers editing exactly to those the server lets change the template. */
  lemma CanEditMatchesServer(user: Option<Caller>, t: Template)
    ensures CanEdit(user, t) <==> user.Some? && TemplateRoutes.MayManage(t, user.value)
  {
  }

  /**
   * canFillForm: a logged-in user, and the template is public or its
   * `allowedUsers` (absent: `None`) lists the user.
   */
  predicate CanFillForm(user: Option<Caller>, t: Template, allowedUsers: Option<seq<int>>)
    ensures CanFillForm(user, t, allowedUsers) ==> user.Some?
    ensures user.Some? && t.isPublic ==> CanFillForm(user, t, allowedUsers)
  {
    user.Some? && (t.isPublic || (allowedUsers.Some? && exists i | 0 <= i < |allowedUsers.value| :: allowedUsers.value[i] == user.value.id))
  }

  /** The server sends no `allowedUsers`, so filling is offered exactly for public templates to logged-in users. */
  lemma FillWithoutAllowedUsers(user: Option<Caller>, t: Template)
    ensures CanFillForm(user, t, None) <==> user.Some? && t.isPublic
  {
  }

  /** The owner of a private template that does not list them can edit it but is not offered filling it in. */
  lemma OwnerOfPrivateTemplate(user: Caller, t: Template, allowedUsers: Option<seq<int>>)
    requires t.ownerId == user.id && !t.isPublic
    requires allowedUsers.None? || user.id !in allowedUsers.value
    ensures CanEdit(Some(user), t)
    ensures !CanFillForm(Some(user), t, allowedUsers)
  {
    if allowedUsers.Some? {
      assert forall i | 0 <= i < |allowedUsers.value| :: allowedUsers.value[i] != user.id;
    }
  }

  /** `{!user && <Button ...>}`: the login button. */
  predicate ShowLoginButton(user: Option<Caller>) {
    user.None?
  }

  /** The login button and the fill button never show together, and one of them shows for a public template. */
  lemma LoginOrFill(user: Option<Caller>, t: Template, allowedUsers: Option<seq<int>>)
    ensures !(ShowLoginButton(user) && CanFillForm(user, t, allowedUsers))
    ensures t.isPublic ==> ShowLoginButton(user) || CanFillForm(user, t, allowedUsers)
  {
  }
}

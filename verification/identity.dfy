/**
 * Identity resolution of the navigation menu (src/components/layout/UserMenu.tsx):
 * the single hard-coded administrator address and the display-name fallback chain.
 * The same address test is made by the comment section and the admin route guard.
 */
module Identity {
  import opened Wrappers
  import Ascii

  /** The one address that is treated as the administrator. */
  const AdminEmail: string := "parishkrit2061@gmail.com"

  /** The name shown for the administrator, whatever the account metadata says. */
  const AdminName: string := "Parishkrit Bastakoti"

  /** The name shown when neither metadata nor email gives one. */
  const FallbackName: string := "User"

  /** The signed-in account as the auth provider reports it. */
  datatype Account = Account(
    id: string,
    email: Option<string>,        // `user.email`, possibly undefined
    fullName: Option<string>,     // `user.user_metadata.full_name`
    avatarUrl: Option<string>)    // `user.user_metadata.avatar_url`

  /** `user.email === '<admin address>'`: exact, case-sensitive comparison. */
  predicate IsAdminEmail(email: Option<string>) {
    email == Some(AdminEmail)
  }

  /** JavaScript truthiness of an optional string: present and non-empty. */
  predicate Truthy(s: Option<string>) {
    s.Some? && s.value != ""
  }

  /** `email.split('@')[0]`: the text before the first `@`, or all of it. */
  function LocalPart(email: string): (r: string)
    ensures |r| <= |email| && r == email[..|r|]
    ensures '@' !in r
    ensures |r| < |email| ==> email[|r|] == '@'
  {
    var pieces := Ascii.Split(email, '@');
    Ascii.JoinSplit(email, '@');
    if |pieces| > 1 then
      assert Ascii.Join(pieces, "@") == pieces[0] + "@" + Ascii.Join(pieces[1..], "@");
      pieces[0]
    else
      pieces[0]
  }

  /**
   * The name shown in the menu: the administrator's fixed name, else the
   * metadata full name, else the email's local part, else "User".
   */
  function DisplayName(u: Account): (r: string)
    ensures r != []
    ensures IsAdminEmail(u.email) ==> r == AdminName
    ensures !IsAdminEmail(u.email) && Truthy(u.fullName) ==> r == u.fullName.value
    ensures !IsAdminEmail(u.email) && !Truthy(u.fullName) && r != FallbackName ==>
              u.email.Some? && r == LocalPart(u.email.value)
    ensures !IsAdminEmail(u.email) && !Truthy(u.fullName) && u.email.Some? && LocalPart(u.email.value) != "" ==>
              r == LocalPart(u.email.value)
  {
    if IsAdminEmail(u.email) then AdminName
    else if Truthy(u.fullName) then u.fullName.value
    else if u.email.Some? && LocalPart(u.email.value) != "" then LocalPart(u.email.value)
    else FallbackName
  }

  /** What the menu shows for an account. */
  datatype MenuView = MenuView(name: string, verifiedBadge: bool, dashboardLink: bool)

  /** The menu header and items: the badge and the dashboard link only for the administrator. */
  function Menu(u: Account): (m: MenuView)
    ensures m.name != []
    ensures m.verifiedBadge <==> u.email == Some(AdminEmail)
    ensures m.dashboardLink <==> u.email == Some(AdminEmail)
  {
    var admin := IsAdminEmail(u.email);
    MenuView(DisplayName(u), admin, admin)
  }

  /** The administrator's display name ignores the account metadata. */
  lemma AdminNameIgnoresMetadata(u: Account, v: Account)
    requires IsAdminEmail(u.email) && IsAdminEmail(v.email)
    ensures DisplayName(u) == DisplayName(v) == AdminName
  {
  }

  /** The test is exact: a different capitalisation of the address is not the administrator. */
  lemma AdminTestIsCaseSensitive()
    ensures !IsAdminEmail(Some("Parishkrit2061@gmail.com"))
    ensures Ascii.Lower("Parishkrit2061@gmail.com") == AdminEmail
  {
    assert "Parishkrit2061@gmail.com"[0] != AdminEmail[0];
  }

  /** The local part of an address is what comes before its first `@`. */
  lemma LocalPartOfAddress(user: string, domain: string)
    requires '@' !in user
    ensures LocalPart(user + "@" + domain) == user
  {
    Ascii.SplitPrefix(user, '@', domain);
  }
}

/** The second copy of `getUserInitials`, on the landing page
    (frontend/src/pages/Home.tsx). */
module Home {
  import opened Wrappers
  import opened Text
  import opened AuthContext
  import Navbar

  /** `getUserInitials` as the landing page writes it. */
  function GetUserInitials(user: Option<User>): string {
    if !Navbar.HasName(user) then "U"
    else
      var parts := Split(user.value.name.value, ' ');
      if |parts| >= 2 then Navbar.FirstCharText(parts[0]) + Navbar.FirstCharText(parts[1])
      else [parts[0][0]]
  }

  /** The two copies agree on every user, the "undefined" cases included. */
  lemma SameAsNavbar(user: Option<User>)
    ensures GetUserInitials(user) == Navbar.GetUserInitials(user)
  {
  }

  /** So the landing page shows "undefinedB" for the name " Bob" too. */
  lemma LeadingSpaceInitials(email: string)
    ensures GetUserInitials(Some(User(email, Some(" Bob")))) == "undefinedB"
  {
    Navbar.LeadingSpaceInitials(email);
  }
}

/**
 * The user record of app/models.py: the id, e-mail and role stored as given, and the
 * display name derived from the e-mail as email.split('@')[0]. That name is what the
 * signalling relay forwards to the other members of a room.
 */
module Users {

  /** email.split('@')[0]: everything before the first '@', or the whole address. */
  function Username(email: string): (u: string)
    ensures |u| <= |email| && u == email[..|u|]
    ensures '@' !in u
    ensures |u| < |email| ==> email[|u|] == '@'
  {
    if email == [] || email[0] == '@' then [] else [email[0]] + Username(email[1..])
  }

  /** Without an '@' the whole address is the name. */
  lemma NoAtWholeEmail(email: string)
    requires '@' !in email
    ensures Username(email) == email
  {
  }

  /** With an '@' the address is the name, the first '@', and the rest. */
  lemma SplitAtFirstAt(email: string) returns (rest: string)
    requires '@' in email
    ensures email == Username(email) + "@" + rest
  {
    var u := Username(email);
    rest := email[|u| + 1..];
    assert email == email[..|u|] + [email[|u|]] + email[|u| + 1..];
  }

  /** The converse: a name without '@', then '@', then anything, splits back to that name. */
  lemma {:induction false} NameBeforeAt(name: string, domain: string)
    requires '@' !in name
    ensures Username(name + "@" + domain) == name
    decreases |name|
  {
    var email := name + "@" + domain;
    if name == [] {
      assert email[0] == '@';
    } else {
      assert email[0] == name[0];
      assert email[1..] == name[1..] + "@" + domain;
      assert '@' !in name[1..] by {
        forall c | c in name[1..] ensures c != '@' {
          assert c in name;
        }
      }
      NameBeforeAt(name[1..], domain);
      assert [name[0]] + name[1..] == name;
    }
  }

  /** The account the login test uses is shown as "testuser". */
  lemma TestAccountName()
    ensures Username("testuser@alumno.buap.mx") == "testuser"
  {
    assert "testuser@alumno.buap.mx" == "testuser" + "@" + "alumno.buap.mx";
    NameBeforeAt("testuser", "alumno.buap.mx");
  }

  datatype User = User(id: int, email: string, role: string, username: string)

  /** User(id, email, role): the three arguments stored unchanged, the name derived. */
  function NewUser(id: int, email: string, role: string): (user: User)
    ensures user.id == id && user.email == email && user.role == role
    ensures user.username == Username(email)
  {
    User(id, email, role, Username(email))
  }
}

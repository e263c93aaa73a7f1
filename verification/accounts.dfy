/** The account controller: registration and login over the users
    collection, and the contact list kept on each user document. Password
    hashing and comparison are parameters (`hash`, `matches`); token
    signing is not modelled. */
module Accounts {
  import opened Common

  /** A stored user as `register` creates it and `login` and `populate`
      read it. `passwordHash` is the bcrypt hash of the password. */
  datatype Profile = Profile(id: UserId, name: string, email: string, passwordHash: string)

  /** The `user` object of the register and login replies. */
  datatype UserView = UserView(id: UserId, name: string, email: string)

  /** One entry of the `getContacts` reply. */
  datatype ContactView = ContactView(id: UserId, name: string, email: string, online: bool)

  const FieldsRequired := Fault(400, "All fields are required")
  const EmailInUse := Fault(400, "Email already in use")
  const InvalidCredentials := Fault(400, "Invalid credentials")
  const ContactIdRequired := Fault(400, "contactId required")

  function ViewOf(p: Profile): UserView {
    UserView(p.id, p.name, p.email)
  }

  predicate EmailsDistinct(users: seq<Profile>) {
    forall i, j :: 0 <= i < j < |users| ==> users[i].email != users[j].email
  }

  predicate UserIdsDistinct(users: seq<Profile>) {
    forall i, j :: 0 <= i < j < |users| ==> users[i].id != users[j].id
  }

  // ---------------------------------------------------------------------
  // register and login
  // ---------------------------------------------------------------------

  /** `User.findOne({ email })`: the first user with that email. */
  function FindByEmail(users: seq<Profile>, email: string): (r: Option<nat>)
    ensures r.None? <==> forall j :: 0 <= j < |users| ==> users[j].email != email
    ensures r.Some? ==> r.value < |users| && users[r.value].email == email
    ensures r.Some? ==> forall j :: 0 <= j < r.value ==> users[j].email != email
  {
    if users == [] then None
    else if users[0].email == email then Some(0)
    else
      match FindByEmail(users[1..], email)
      case None => None
      case Some(i) => Some(i + 1)
  }

  /** `register`: 400 when a field is missing or the email is taken;
      otherwise the new user, with id `freshId` and the hashed password. */
  function RegisterDecision(users: seq<Profile>, name: Option<string>, email: Option<string>, password: Option<string>,
                            freshId: UserId, hash: string -> string): (r: Result<Profile>)
    ensures !(Present(name) && Present(email) && Present(password)) <==> r == Failure(FieldsRequired)
    ensures r.Failure? ==> r == Failure(FieldsRequired) || r == Failure(EmailInUse)
    ensures Present(name) && Present(email) && Present(password) ==>
      (r == Failure(EmailInUse) <==> exists j :: 0 <= j < |users| && users[j].email == email.value)
    ensures r.Success? ==> r.value.email == email.value && r.value.name == name.value && r.value.id == freshId
    ensures r.Success? ==> r.value.passwordHash == hash(password.value)
    ensures r.Success? ==> forall j :: 0 <= j < |users| ==> users[j].email != r.value.email
  {
    if !Present(name) || !Present(email) || !Present(password) then Failure(FieldsRequired)
    else if FindByEmail(users, email.value).Some? then Failure(EmailInUse)
    else Success(Profile(freshId, name.value, email.value, hash(password.value)))
  }

  /** `login`: 400 when a field is missing, and the same "Invalid
      credentials" for an unknown email and for a wrong password. */
  function Login(users: seq<Profile>, email: Option<string>, password: Option<string>,
                 matches: (string, string) -> bool): (r: Result<UserView>)
    ensures !(Present(email) && Present(password)) <==> r == Failure(FieldsRequired)
    ensures r.Failure? ==> r == Failure(FieldsRequired) || r == Failure(InvalidCredentials)
    ensures Present(email) && Present(password) ==>
      (r == Failure(InvalidCredentials) <==>
        FindByEmail(users, email.value).None? ||
        !matches(password.value, users[FindByEmail(users, email.value).value].passwordHash))
    ensures r.Success? ==> exists j :: 0 <= j < |users| && users[j].email == email.value && r.value == ViewOf(users[j])
  {
    if !Present(email) || !Present(password) then Failure(FieldsRequired)
    else
      match FindByEmail(users, email.value)
      case None => Failure(InvalidCredentials)
      case Some(j) =>
        if !matches(password.value, users[j].passwordHash) then Failure(InvalidCredentials)
        else Success(ViewOf(users[j]))
  }

  /** A caller cannot tell an unknown email from a wrong password. */
  lemma UnknownEmailLooksLikeWrongPassword(users: seq<Profile>, unknown: string, known: string, guess1: string, guess2: string,
                                           matches: (string, string) -> bool)
    requires unknown != "" && known != "" && guess1 != "" && guess2 != ""
    requires forall j :: 0 <= j < |users| ==> users[j].email != unknown
    requires FindByEmail(users, known).Some?
    requires !matches(guess2, users[FindByEmail(users, known).value].passwordHash)
    ensures Login(users, Some(unknown), Some(guess1), matches) == Login(users, Some(known), Some(guess2), matches)
    ensures Login(users, Some(unknown), Some(guess1), matches) == Failure(InvalidCredentials)
  {
  }

  /** Registering and then logging in with the same email and password
      answers the new user, when the comparison accepts every password
      against its own hash. */
  lemma RegisterThenLogin(users: seq<Profile>, name: Option<string>, email: Option<string>, password: Option<string>,
                          freshId: UserId, hash: string -> string, matches: (string, string) -> bool)
    requires forall p :: matches(p, hash(p))
    requires RegisterDecision(users, name, email, password, freshId, hash).Success?
    ensures var p := RegisterDecision(users, name, email, password, freshId, hash).value;
      Login(users + [p], email, password, matches) == Success(UserView(freshId, name.value, email.value))
  {
    var p := RegisterDecision(users, name, email, password, freshId, hash).value;
    var after := users + [p];
    assert after[|users|] == p;
    assert forall j :: 0 <= j < |users| ==> after[j] == users[j];
    assert FindByEmail(after, email.value) == Some(|users|);
  }

  /** The users collection. */
  class UserStore {
    var users: seq<Profile>

    /** Emails are unique because `register` refuses a taken one; ids are
        unique because the database hands out fresh ones. */
    ghost predicate Valid()
      reads this
    {
      EmailsDistinct(users) && UserIdsDistinct(users)
    }

    constructor ()
      ensures Valid() && users == []
    {
      users := [];
    }

    /** `register`, with `freshId` the id the database gives the new
        document. A refused registration creates no user. */
    method Register(name: Option<string>, email: Option<string>, password: Option<string>,
                    freshId: UserId, hash: string -> string) returns (r: Result<UserView>)
      requires Valid()
      requires forall j :: 0 <= j < |users| ==> users[j].id != freshId
      modifies this
      ensures Valid()
      ensures RegisterDecision(old(users), name, email, password, freshId, hash).Failure? ==>
        r == Failure(RegisterDecision(old(users), name, email, password, freshId, hash).fault) && users == old(users)
      ensures RegisterDecision(old(users), name, email, password, freshId, hash).Success? ==>
        var p := RegisterDecision(old(users), name, email, password, freshId, hash).value;
        r == Success(ViewOf(p)) && users == old(users) + [p]
    {
      var d := RegisterDecision(users, name, email, password, freshId, hash);
      if d.Failure? {
        return Failure(d.fault);
      }
      users := users + [d.value];
      r := Success(ViewOf(d.value));
    }
  }

  // ---------------------------------------------------------------------
  // The contact list
  // ---------------------------------------------------------------------

  /** `if (!contacts.includes(c)) contacts.push(c)`. */
  function WithContact(cs: seq<UserId>, c: UserId): (r: seq<UserId>)
    ensures forall x :: x in r <==> x in cs || x == c
    ensures |r| == if c in cs then |cs| else |cs| + 1
    ensures r[..|cs|] == cs
  {
    if c in cs then cs else cs + [c]
  }

  /** `contacts.filter(id => String(id) !== String(c))`: every entry equal to
      `c` goes, every other entry stays, as many times as it was there. */
  function WithoutContact(cs: seq<UserId>, c: UserId): (r: seq<UserId>)
    ensures |r| <= |cs|
    ensures forall x :: x in r <==> x in cs && x != c
    ensures forall x :: x != c ==> multiset(r)[x] == multiset(cs)[x]
  {
    if cs == [] then []
    else
      assert cs == [cs[0]] + cs[1..];
      (if cs[0] == c then [] else [cs[0]]) + WithoutContact(cs[1..], c)
  }

  predicate NoDuplicates(cs: seq<UserId>) {
    forall i, j :: 0 <= i < j < |cs| ==> cs[i] != cs[j]
  }

  /** Adding is idempotent, never introduces a duplicate, and keeps the
      existing entries in place with `c` at most appended. */
  lemma AddContactProperties(cs: seq<UserId>, c: UserId)
    ensures WithContact(WithContact(cs, c), c) == WithContact(cs, c)
    ensures c in WithContact(cs, c)
    ensures NoDuplicates(cs) ==> NoDuplicates(WithContact(cs, c))
    ensures |WithContact(cs, c)| <= |cs| + 1 && WithContact(cs, c)[..|cs|] == cs
  {
    var r := WithContact(cs, c);
    if c !in cs {
      assert r[..|cs|] == cs;
      assert r[|cs|] == c;
    }
  }

  /** The filter keeps the order of what it keeps: filtering a
      concatenation filters each part. */
  lemma {:induction false} WithoutContactDistributes(a: seq<UserId>, b: seq<UserId>, c: UserId)
    ensures WithoutContact(a + b, c) == WithoutContact(a, c) + WithoutContact(b, c)
  {
    if a == [] {
      assert a + b == b;
    } else {
      assert (a + b)[0] == a[0];
      assert (a + b)[1..] == a[1..] + b;
      WithoutContactDistributes(a[1..], b, c);
    }
  }

  /** Removing an id that is not in the list changes nothing. */
  lemma {:induction false} WithoutAbsentContact(cs: seq<UserId>, c: UserId)
    requires c !in cs
    ensures WithoutContact(cs, c) == cs
  {
    if cs != [] {
      assert c !in cs[1..];
      WithoutAbsentContact(cs[1..], c);
    }
  }

  /** Removing a contact that was just added restores the list. */
  lemma RemoveUndoesAdd(cs: seq<UserId>, c: UserId)
    requires c !in cs
    ensures WithoutContact(WithContact(cs, c), c) == cs
  {
    WithoutContactDistributes(cs, [c], c);
    WithoutAbsentContact(cs, c);
    assert WithoutContact([c], c) == [];
  }

  /** Removal keeps a duplicate-free list duplicate-free. */
  lemma {:induction false} RemoveKeepsNoDuplicates(cs: seq<UserId>, c: UserId)
    requires NoDuplicates(cs)
    ensures NoDuplicates(WithoutContact(cs, c))
  {
    if cs != [] {
      assert NoDuplicates(cs[1..]) by {
        assert forall i :: 0 <= i < |cs| - 1 ==> cs[1..][i] == cs[i + 1];
      }
      RemoveKeepsNoDuplicates(cs[1..], c);
      assert cs[0] !in cs[1..];
    }
  }

  /** A user document: the only field the contact operations touch is the
      ordered list of contact ids. */
  class Account {
    const id: UserId
    var contacts: seq<UserId>

    constructor (id: UserId)
      ensures this.id == id && contacts == []
    {
      this.id := id;
      contacts := [];
    }

    /** `addContact`: 400 without `contactId`; otherwise append it unless
        it is already there. */
    method AddContact(contactId: Option<string>) returns (r: Result<string>)
      modifies this`contacts
      ensures !Present(contactId) ==> r == Failure(ContactIdRequired) && contacts == old(contacts)
      ensures Present(contactId) ==> r == Success("Contact added") && contacts == WithContact(old(contacts), contactId.value)
    {
      if !Present(contactId) {
        return Failure(ContactIdRequired);
      }
      if contactId.value !in contacts {
        contacts := contacts + [contactId.value];
      }
      r := Success("Contact added");
    }

    /** `removeContact`: 400 without `contactId`; otherwise keep every
        entry that differs from it. */
    method RemoveContact(contactId: Option<string>) returns (r: Result<string>)
      modifies this`contacts
      ensures !Present(contactId) ==> r == Failure(ContactIdRequired) && contacts == old(contacts)
      ensures Present(contactId) ==> r == Success("Contact removed") && contacts == WithoutContact(old(contacts), contactId.value)
    {
      if !Present(contactId) {
        return Failure(ContactIdRequired);
      }
      contacts := WithoutContact(contacts, contactId.value);
      r := Success("Contact removed");
    }
  }

  // ---------------------------------------------------------------------
  // getContacts
  // ---------------------------------------------------------------------

  /** `findById` on the users collection. */
  function FindProfile(users: seq<Profile>, id: UserId): (r: Option<nat>)
    ensures r.None? <==> forall j :: 0 <= j < |users| ==> users[j].id != id
    ensures r.Some? ==> r.value < |users| && users[r.value].id == id
  {
    if users == [] then None
    else if users[0].id == id then Some(0)
    else
      match FindProfile(users[1..], id)
      case None => None
      case Some(i) => Some(i + 1)
  }

  /** A reply entry shows the name and email of the user it names, and
      shows it offline. */
  predicate Describes(users: seq<Profile>, v: ContactView) {
    !v.online && exists j :: 0 <= j < |users| && users[j] == Profile(v.id, v.name, v.email, users[j].passwordHash)
  }

  /** `populate('contacts', 'name email')` followed by the `map` to
      `{ id, name, email, online: false }`. Populating an array drops the
      ids that name no user and keeps the order of the rest. */
  function GetContacts(contacts: seq<UserId>, users: seq<Profile>): (r: seq<ContactView>)
    ensures |r| <= |contacts|
    ensures forall i :: 0 <= i < |r| ==> Describes(users, r[i])
    ensures forall i :: 0 <= i < |r| ==> r[i].id in contacts
  {
    if contacts == [] then []
    else
      var rest := GetContacts(contacts[1..], users);
      match FindProfile(users, contacts[0])
      case None => rest
      case Some(j) =>
        var v := ContactView(users[j].id, users[j].name, users[j].email, false);
        assert users[j] == Profile(v.id, v.name, v.email, users[j].passwordHash);
        [v] + rest
  }

  /** When every contact id names a user, the reply has one entry per
      contact, in the stored order. */
  lemma {:induction false} GetContactsKeepsOrder(contacts: seq<UserId>, users: seq<Profile>)
    requires forall i :: 0 <= i < |contacts| ==> FindProfile(users, contacts[i]).Some?
    ensures |GetContacts(contacts, users)| == |contacts|
    ensures forall i :: 0 <= i < |contacts| ==> GetContacts(contacts, users)[i].id == contacts[i]
  {
    if contacts != [] {
      assert forall i :: 0 <= i < |contacts| - 1 ==> contacts[1..][i] == contacts[i + 1];
      GetContactsKeepsOrder(contacts[1..], users);
    }
  }

  /** Each contact id gives one entry when it names a user and none
      otherwise. */
  lemma GetContactsOfOne(c: UserId, users: seq<Profile>)
    ensures |GetContacts([c], users)| == if FindProfile(users, c).Some? then 1 else 0
    ensures forall i :: 0 <= i < |GetContacts([c], users)| ==> GetContacts([c], users)[i].id == c
  {
    assert [c][1..] == [];
  }

  /** The reply keeps the order of the stored list: listing a concatenation
      lists each part. With `GetContactsOfOne`, an id that names no user is
      dropped and every other id gives one entry in its place. */
  lemma {:induction false} GetContactsDistributes(a: seq<UserId>, b: seq<UserId>, users: seq<Profile>)
    ensures GetContacts(a + b, users) == GetContacts(a, users) + GetContacts(b, users)
  {
    if a == [] {
      assert a + b == b;
    } else {
      assert (a + b)[0] == a[0];
      assert (a + b)[1..] == a[1..] + b;
      GetContactsDistributes(a[1..], b, users);
    }
  }
}

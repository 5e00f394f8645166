/**
 * The rights and password sequences the unit tests walk a fresh user
 * through, stated for every user with an id and every choice of rights.
 */
module Scenarios {
  import opened Outcomes
  import opened Values
  import opened Digests
  import opened Storage
  import opened Users
  import opened Rights

  /** A right a loaded user holds only if it is stored for them. */
  predicate Explicit(t: string) {
    t != MemberOfUsers && t != MemberOfGuests
  }

  /** Granting other rights leaves an absent explicit right absent. */
  lemma GrantKeepsAbsent(db: Store, u: User, texts: seq<string>, t: string)
    requires HasId(u) && Explicit(t) && t !in texts && !Stored(db, u.data.id, t)
    ensures !Holds(Grant(db, u, texts).value, u, t)
  {
    forall s | s in texts
      ensures Sha1(s) != Sha1(t)
    {
      Sha1Injective(s, t);
    }
  }

  /** A revoked explicit right is no longer held. */
  lemma RevokeRemoves(db: Store, u: User, texts: seq<string>, t: string)
    requires HasId(u) && Explicit(t) && t in texts
    ensures !Holds(Revoke(db, u, texts).value, u, t)
  {
  }

  /** Revoking other rights leaves a held right held. */
  lemma RevokeKeepsOthers(db: Store, u: User, texts: seq<string>, t: string)
    requires HasId(u) && t !in texts && Holds(db, u, t)
    ensures Holds(Revoke(db, u, texts).value, u, t)
  {
    forall s | s in texts
      ensures Sha1(s) != Sha1(t)
    {
      Sha1Injective(s, t);
    }
  }

  /** The answers of the three queries the test makes, from which of the three rights are held. */
  lemma HeldAnswers(db: Store, u: User, a: string, b: string, c: string)
    ensures HasRight(db, u, [a, b, c]) <==> Holds(db, u, a) || Holds(db, u, b) || Holds(db, u, c)
    ensures HasRightsAll(db, u, [a, b, c]) <==> Holds(db, u, a) && Holds(db, u, b) && Holds(db, u, c)
    ensures FilterRights(db, u, [a, b, c]) == [] <==> !Holds(db, u, a) && !Holds(db, u, b) && !Holds(db, u, c)
    ensures Holds(db, u, a) && Holds(db, u, b) && Holds(db, u, c) ==> |FilterRights(db, u, [a, b, c])| == 3
  {
    var rs := [a, b, c];
    assert rs[0] == a && rs[1] == b && rs[2] == c;
    if FilterRights(db, u, rs) != [] {
      assert FilterRights(db, u, rs)[0] in FilterRights(db, u, rs);
    }
  }

  /** The first half of the rights test: grant two rights, revoke one of them. */
  lemma {:induction false} GrantTwoRevokeOne(db: Store, u: User, a: string, b: string, c: string)
    requires HasId(u) && u.data.id.Int?
    requires a != b && b != c && a != c
    requires Explicit(a) && Explicit(b) && Explicit(c)
    requires !Stored(db, u.data.id, a) && !Stored(db, u.data.id, b) && !Stored(db, u.data.id, c)
    ensures !HasRight(db, u, [a, b, c]) && !HasRightsAll(db, u, [a, b, c])
    ensures var db1 := Grant(db, u, [a, b]).value;
      && HasRight(db1, u, [a, b, c]) && !HasRightsAll(db1, u, [a, b, c])
      && var db2 := Revoke(db1, u, [b]).value;
      && HasRight(db2, u, [a, b, c]) && !HasRightsAll(db2, u, [a, b, c])
      && Holds(db2, u, a)
  {
    HeldAnswers(db, u, a, b, c);

    var db1 := Grant(db, u, [a, b]).value;
    assert Holds(db1, u, a) && !Holds(db1, u, c) by {
      GrantThenHolds(db, u, [a, b], a);
      GrantKeepsAbsent(db, u, [a, b], c);
    }
    HeldAnswers(db1, u, a, b, c);

    var db2 := Revoke(db1, u, [b]).value;
    assert Holds(db2, u, a) && !Holds(db2, u, c) by {
      RevokeKeepsOthers(db1, u, [b], a);
      assert db2.rights <= db1.rights;
    }
    HeldAnswers(db2, u, a, b, c);
  }

  /**
   * The second half: with the first right held, grant the other two,
   * revoke all three, grant all three again.
   */
  lemma {:induction false} GrantRestRevokeAll(db2: Store, u: User, a: string, b: string, c: string)
    requires HasId(u) && u.data.id.Int?
    requires Explicit(a) && Explicit(b) && Explicit(c)
    requires Holds(db2, u, a)
    ensures var db3 := Grant(db2, u, [b, c]).value;
      && HasRight(db3, u, [a, b, c]) && HasRightsAll(db3, u, [a, b, c])
      && var db4 := Revoke(db3, u, [a, b, c]).value;
      && !HasRight(db4, u, [a, b, c]) && !HasRightsAll(db4, u, [a, b, c])
      && FilterRights(db4, u, [a, b, c]) == []
      && |FilterRights(Grant(db4, u, [a, b, c]).value, u, [a, b, c])| == 3
  {
    var db3 := Grant(db2, u, [b, c]).value;
    assert Holds(db3, u, a) && Holds(db3, u, b) && Holds(db3, u, c) by {
      GrantThenHolds(db2, u, [b, c], b);
      GrantThenHolds(db2, u, [b, c], c);
      assert db2.rights <= db3.rights;
    }
    HeldAnswers(db3, u, a, b, c);

    var db4 := Revoke(db3, u, [a, b, c]).value;
    assert !Holds(db4, u, a) && !Holds(db4, u, b) && !Holds(db4, u, c) by {
      RevokeRemoves(db3, u, [a, b, c], a);
      RevokeRemoves(db3, u, [a, b, c], b);
      RevokeRemoves(db3, u, [a, b, c], c);
    }
    HeldAnswers(db4, u, a, b, c);

    var db5 := Grant(db4, u, [a, b, c]).value;
    assert Holds(db5, u, a) && Holds(db5, u, b) && Holds(db5, u, c) by {
      GrantThenHolds(db4, u, [a, b, c], a);
      GrantThenHolds(db4, u, [a, b, c], b);
      GrantThenHolds(db4, u, [a, b, c], c);
    }
    HeldAnswers(db5, u, a, b, c);
  }

  /** Assigning a long enough password other than the stored column goes through `setPassword`. */
  lemma AssignPassword(u: User, p: string)
    requires ByteLength(p) >= PasswordMinLength && u.data.password != Str(p)
    ensures SetField(u, "password", Str(p)) == Ok(SetPassword(u, p).value.0)
  {
  }

  /** Forbidding login makes every password fail. */
  lemma ForbidLogin(u: User, p: string)
    ensures SetField(u, "canLogin", Bool(false)).Ok?
    ensures !ValidatePassword(SetField(u, "canLogin", Bool(false)).value, p)
  {
  }

  /**
   * The password test: after setting and saving a password it validates and
   * other strings (the empty one, a short one, a longer different one) do
   * not; a new password replaces it; forbidding login makes it fail again.
   */
  lemma {:induction false} PasswordSequence(db: Store, u: User, k: int, p: string, other: string, p2: string)
    requires u.data.id == Int(k) && k != 0 && k in db.users && Truthy(u.data.canLogin)
    requires ByteLength(p) >= PasswordMinLength && ByteLength(p2) >= PasswordMinLength
    requires other != p && p2 != p
    requires u.data.password != Str(p) && p2 != PasswordHash(p)
    ensures var u1 := Save(db, SetPassword(u, p).value.0).value.user;
      && ValidatePassword(u1, p) && !ValidatePassword(u1, other)
      && !ValidatePassword(u1, "") && !ValidatePassword(u1, "123")
      && var u2 := SetPassword(u1, p2).value.0;
      && ValidatePassword(u2, p2) && !ValidatePassword(u2, p)
      && SetField(u2, "canLogin", Bool(false)).Ok?
      && !ValidatePassword(SetField(u2, "canLogin", Bool(false)).value, p2)
  {
    var u0 := SetPassword(u, p).value.0;
    SetPasswordThenValidate(u, p, other);
    var u1 := Save(db, u0).value.user;
    assert u1.data == u0.data;
    assert ByteLength("123") == 3;
    SetPasswordThenValidate(u1, p2, p);
    ForbidLogin(SetPassword(u1, p2).value.0, p2);
  }
}

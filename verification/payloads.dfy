/** The request bodies that `create`, `update` and `change_password` compose. */
module Payloads {
  import opened PyDict
  import opened Json

  /** The keys `create` sets after translating the known fields. */
  const CREATE_KEYS: set<string> :=
    {"displayName", "mail", "accountEnabled", "passwordPolicies", "passwordProfile", "identities"}

  /** The known-field loop over the given mapping keys: each key the user supplies is sent under its id. */
  function TranslateKeys(mapping: Dict<string>, keys: seq<string>, user: Record): Record
    requires forall a :: a in keys ==> a in mapping.entries
  {
    if keys == [] then Empty()
    else
      var a := keys[|keys| - 1];
      var prev := TranslateKeys(mapping, keys[..|keys| - 1], user);
      if a in user.entries then prev.Set(mapping.entries[a], user.entries[a]) else prev
  }

  /** The user's fields translated to ids, the mapping's keys taken in insertion order. */
  function Translated(mapping: Dict<string>, user: Record): Record
    requires mapping.Valid()
  {
    TranslateKeys(mapping, mapping.order, user)
  }

  /** A translation is a well-formed dict whose keys are the ids of the supplied names, each value supplied under a name with that id. */
  lemma {:induction false} TranslateKeysFields(mapping: Dict<string>, keys: seq<string>, user: Record)
    requires forall a :: a in keys ==> a in mapping.entries
    ensures TranslateKeys(mapping, keys, user).Valid()
    ensures forall id :: id in TranslateKeys(mapping, keys, user).entries <==>
              exists a :: a in keys && a in user.entries && mapping.entries[a] == id
    ensures forall id :: id in TranslateKeys(mapping, keys, user).entries ==>
              exists a :: a in keys && a in user.entries && mapping.entries[a] == id
                          && TranslateKeys(mapping, keys, user).entries[id] == user.entries[a]
  {
    if keys != [] {
      var init := keys[..|keys| - 1];
      var last := keys[|keys| - 1];
      TranslateKeysFields(mapping, init, user);
      var out := TranslateKeys(mapping, keys, user);
      forall id | exists a :: a in keys && a in user.entries && mapping.entries[a] == id
        ensures id in out.entries
      {
        var a :| a in keys && a in user.entries && mapping.entries[a] == id;
        if a != last {
          assert a in init;
        }
      }
      forall id | id in out.entries
        ensures exists a :: a in keys && a in user.entries && mapping.entries[a] == id && out.entries[id] == user.entries[a]
      {
        if last in user.entries && mapping.entries[last] == id {
          assert out.entries[id] == user.entries[last];
        } else {
          var a :| a in init && a in user.entries && mapping.entries[a] == id
                   && TranslateKeys(mapping, init, user).entries[id] == user.entries[a];
          assert a in keys;
        }
      }
    }
  }

  /** The value under an id is the one supplied under the last supplied name with that id. */
  lemma {:induction false} TranslateKeysLastWins(mapping: Dict<string>, keys: seq<string>, user: Record, i: nat)
    requires forall a :: a in keys ==> a in mapping.entries
    requires i < |keys| && keys[i] in user.entries
    requires forall j :: i < j < |keys| && keys[j] in user.entries ==> mapping.entries[keys[j]] != mapping.entries[keys[i]]
    ensures mapping.entries[keys[i]] in TranslateKeys(mapping, keys, user).entries
    ensures TranslateKeys(mapping, keys, user).entries[mapping.entries[keys[i]]] == user.entries[keys[i]]
  {
    if i < |keys| - 1 {
      TranslateKeysLastWins(mapping, keys[..|keys| - 1], user, i);
    }
  }

  /**
   * What the known-field loop of `create` and `update` sends: exactly the ids of the mapping keys the
   * user supplies (anything else the user passes is dropped), each with a value supplied under a name
   * with that id; when only one supplied name has that id, its value.
   */
  lemma TranslatedContents(mapping: Dict<string>, user: Record)
    requires mapping.Valid()
    ensures Translated(mapping, user).Valid()
    ensures forall id :: id in Translated(mapping, user).entries <==>
              exists a :: a in mapping.entries && a in user.entries && mapping.entries[a] == id
    ensures forall id :: id in Translated(mapping, user).entries ==>
              exists a :: a in mapping.entries && a in user.entries && mapping.entries[a] == id
                          && Translated(mapping, user).entries[id] == user.entries[a]
    ensures forall a :: a in mapping.entries && a in user.entries &&
              (forall b :: b in mapping.entries && b in user.entries && b != a ==> mapping.entries[b] != mapping.entries[a])
              ==> mapping.entries[a] in Translated(mapping, user).entries
                  && Translated(mapping, user).entries[mapping.entries[a]] == user.entries[a]
  {
    TranslateKeysFields(mapping, mapping.order, user);
    forall a | a in mapping.entries && a in user.entries &&
        (forall b :: b in mapping.entries && b in user.entries && b != a ==> mapping.entries[b] != mapping.entries[a])
      ensures mapping.entries[a] in Translated(mapping, user).entries
      ensures Translated(mapping, user).entries[mapping.entries[a]] == user.entries[a]
    {
      var i :| 0 <= i < |mapping.order| && mapping.order[i] == a;
      forall j | i < j < |mapping.order| && mapping.order[j] in user.entries
        ensures mapping.entries[mapping.order[j]] != mapping.entries[a]
      {
        assert mapping.order[j] in mapping.entries && mapping.order[j] != a;
      }
      TranslateKeysLastWins(mapping, mapping.order, user, i);
    }
  }

  /**
   * The fixed fields `create` adds, one after the other, to the translated known fields t;
   * a field of t with one of these names is overwritten in place.
   */
  function CreateBody(t: Record, displayName: Value, email: Value, password: Value, tenantName: string): Record {
    t.Set("displayName", displayName)
     .Set("mail", email)
     .Set("accountEnabled", Bool(true))
     .Set("passwordPolicies", Str("DisablePasswordExpiration"))
     .Set("passwordProfile", Object(PasswordProfile(password)))
     .Set("identities", Array([Object(LocalIdentity(tenantName, email))]))
  }

  /** Each fixed field of the create body holds its required value, whatever t held under that name. */
  lemma CreateBodyFixedFields(t: Record, displayName: Value, email: Value, password: Value, tenantName: string)
    ensures var b := CreateBody(t, displayName, email, password, tenantName).entries;
            && CREATE_KEYS <= b.Keys
            && b["displayName"] == displayName
            && b["mail"] == email
            && b["accountEnabled"] == Bool(true)
            && b["passwordPolicies"] == Str("DisablePasswordExpiration")
            && b["passwordProfile"] == Object(PasswordProfile(password))
            && b["identities"] == Array([Object(LocalIdentity(tenantName, email))])
  {
    SetCreateValues(t, displayName, email, Bool(true), Str("DisablePasswordExpiration"),
      Object(PasswordProfile(password)), Array([Object(LocalIdentity(tenantName, email))]));
  }

  /** Setting the six fixed names one after the other leaves each holding the value set under it. */
  lemma SetCreateValues(t: Record, v1: Value, v2: Value, v3: Value, v4: Value, v5: Value, v6: Value)
    ensures var b := t.Set("displayName", v1).Set("mail", v2).Set("accountEnabled", v3)
                      .Set("passwordPolicies", v4).Set("passwordProfile", v5).Set("identities", v6).entries;
            && CREATE_KEYS <= b.Keys
            && b["displayName"] == v1 && b["mail"] == v2 && b["accountEnabled"] == v3
            && b["passwordPolicies"] == v4 && b["passwordProfile"] == v5 && b["identities"] == v6
  {
    var e := t.entries["displayName" := v1]["mail" := v2]["accountEnabled" := v3]
               ["passwordPolicies" := v4]["passwordProfile" := v5]["identities" := v6];
    assert t.Set("displayName", v1).Set("mail", v2).Set("accountEnabled", v3)
            .Set("passwordPolicies", v4).Set("passwordProfile", v5).Set("identities", v6).entries == e;
    MapSetValues(t.entries, v1, v2, v3, v4, v5, v6);
  }

  /** The six updates of a plain map, each read back after the later ones. */
  lemma MapSetValues(e: map<string, Value>, v1: Value, v2: Value, v3: Value, v4: Value, v5: Value, v6: Value)
    ensures var b := e["displayName" := v1]["mail" := v2]["accountEnabled" := v3]
                      ["passwordPolicies" := v4]["passwordProfile" := v5]["identities" := v6];
            && CREATE_KEYS <= b.Keys
            && b["displayName"] == v1 && b["mail"] == v2 && b["accountEnabled"] == v3
            && b["passwordPolicies"] == v4 && b["passwordProfile"] == v5 && b["identities"] == v6
  {
    // The six names have six different lengths, so no update overwrites another.
    assert |"displayName"| == 11 && |"mail"| == 4 && |"accountEnabled"| == 14;
    assert |"passwordPolicies"| == 16 && |"passwordProfile"| == 15 && |"identities"| == 10;
  }

  /** Setting the six fixed names, whatever their values, keeps the dict well formed and every other field as it was. */
  lemma SetCreateKeys(t: Record, v1: Value, v2: Value, v3: Value, v4: Value, v5: Value, v6: Value)
    requires t.Valid()
    ensures var b := t.Set("displayName", v1).Set("mail", v2).Set("accountEnabled", v3)
                      .Set("passwordPolicies", v4).Set("passwordProfile", v5).Set("identities", v6);
            && b.Valid()
            && b.entries.Keys == t.entries.Keys + CREATE_KEYS
            && forall id :: id in t.entries && id !in CREATE_KEYS ==> b.entries[id] == t.entries[id]
  {
    var e1 := t.entries["displayName" := v1];
    var e2 := e1["mail" := v2];
    var e3 := e2["accountEnabled" := v3];
    var e4 := e3["passwordPolicies" := v4];
    var e5 := e4["passwordProfile" := v5];
    var e6 := e5["identities" := v6];
    assert e6.Keys == t.entries.Keys + CREATE_KEYS;
    assert forall id :: id in t.entries && id !in CREATE_KEYS ==> e6[id] == t.entries[id];
    var b := t.Set("displayName", v1).Set("mail", v2).Set("accountEnabled", v3)
              .Set("passwordPolicies", v4).Set("passwordProfile", v5).Set("identities", v6);
    assert b.entries == e6;
  }

  /** The `passwordProfile` object: the password, and no forced change at the next sign-in. */
  function PasswordProfile(password: Value): (d: Record)
    ensures d.Valid()
    ensures d.entries.Keys == {"password", "forceChangePasswordNextSignIn"}
    ensures d.entries["password"] == password
    ensures d.entries["forceChangePasswordNextSignIn"] == Bool(false)
  {
    Dict(["password", "forceChangePasswordNextSignIn"],
         map["password" := password, "forceChangePasswordNextSignIn" := Bool(false)])
  }

  /** The single `identities` entry of a new user: a local sign-in by email address, issued by the tenant. */
  function LocalIdentity(tenantName: string, email: Value): (d: Record)
    ensures d.Valid()
    ensures d.entries.Keys == {"issuer", "issuerAssignedId", "signInType"}
    ensures d.entries["issuer"] == Str(tenantName)
    ensures d.entries["issuerAssignedId"] == email
    ensures d.entries["signInType"] == Str("emailAddress")
  {
    Dict(["issuer", "issuerAssignedId", "signInType"],
         map["issuer" := Str(tenantName), "issuerAssignedId" := email, "signInType" := Str("emailAddress")])
  }

  /** The display name `create` falls back on: `f"{givenName} {surname}"`, a missing part reading "None". */
  function DefaultDisplayName(user: Record): (r: string)
    ensures "givenName" in user.entries && user.entries["givenName"].Str? &&
            "surname" in user.entries && user.entries["surname"].Str? ==>
              r == user.entries["givenName"].s + " " + user.entries["surname"].s
    ensures "givenName" !in user.entries ==> "None " <= r
  {
    PyStr(Get(user, "givenName")) + " " + PyStr(Get(user, "surname"))
  }
}

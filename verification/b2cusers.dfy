/**
 * The `User` class of the B2C user directory client: the attribute tables it builds from
 * the tenant's user-flow schema, and the operations that translate user records between
 * attribute names and Graph ids. Every call to the Graph API is replaced by a parameter
 * holding what the server returned.
 */
module B2cUsers {
  import opened Wrappers
  import opened Errors
  import opened PyDict
  import opened Json
  import opened Schema
  import Text
  import Listing
  import Payloads

  /** The class attribute `User.custom_user_attributes`: one list, shared by every `User` ever built. */
  class SharedCustomAttributes {
    var ids: seq<string>

    constructor ()
      ensures ids == []
    {
      ids := [];
    }
  }

  class User {
    const tenantName: string
    /** Where `self.custom_user_attributes` resolves: the shared class-level list. */
    const customAttributes: SharedCustomAttributes
    var userflowAttributes: seq<string>
    var mapping: Dict<string>
    var allAttributes: seq<string>
    /** The schema the tables were built from. */
    ghost var schemaEntries: seq<SchemaEntry>

    ghost predicate Valid()
      reads this
    {
      && userflowAttributes == Ids(schemaEntries)
      && mapping == BuildMapping(schemaEntries)
      && mapping.Valid()
      && allAttributes == AllAttributes(userflowAttributes)
    }

    /**
     * `__init__`, given the entries of `/identity/userFlowAttributes`: builds the id list, the
     * name-to-id mapping and the combined attribute list, and appends every custom id to the
     * shared list, which it never resets.
     */
    constructor (tenantName: string, schema: seq<SchemaEntry>, shared: SharedCustomAttributes)
      modifies shared
      ensures Valid()
      ensures this.tenantName == tenantName && customAttributes == shared && schemaEntries == schema
      ensures userflowAttributes == Ids(schema)
      ensures mapping == BuildMapping(schema)
      ensures allAttributes == AllAttributes(Ids(schema))
      ensures shared.ids == old(shared.ids) + CustomIds(schema)
    {
      this.tenantName := tenantName;
      customAttributes := shared;
      schemaEntries := schema;
      userflowAttributes := Ids(schema);
      var m := BuildTables(schema, shared);
      MappingValid(schema);
      mapping := m;
      allAttributes := AllAttributes(Ids(schema));
    }

    /**
     * The schema loop of `__init__`: each built-in id maps to itself; each custom entry maps its
     * lower-cased display name to its id, and the id is appended to the shared list.
     */
    static method BuildTables(schema: seq<SchemaEntry>, shared: SharedCustomAttributes) returns (m: Dict<string>)
      modifies shared
      ensures m == BuildMapping(schema)
      ensures shared.ids == old(shared.ids) + CustomIds(schema)
    {
      ghost var start := shared.ids;
      m := Empty();
      var i := 0;
      while i < |schema|
        invariant 0 <= i <= |schema|
        invariant m == BuildMapping(schema[..i])
        invariant shared.ids == start + CustomIds(schema[..i])
      {
        TablesStep(schema, i, start);
        m := AddSchemaEntry(schema[i], m, shared);
        i := i + 1;
      }
      assert schema[..i] == schema;
    }

    /** One turn of the schema loop, stated on the mapping and on the shared list that started as `start`. */
    static lemma TablesStep(schema: seq<SchemaEntry>, i: nat, start: seq<string>)
      requires i < |schema|
      ensures BuildMapping(schema[..i + 1]) == BuildMapping(schema[..i]).Set(KeyOf(schema[i]), schema[i].id)
      ensures start + CustomIds(schema[..i + 1])
              == (start + CustomIds(schema[..i])) + (if schema[i].IsBuiltIn() then [] else [schema[i].id])
    {
      BuildStep(schema, i);
      if schema[i].IsBuiltIn() {
        assert (start + CustomIds(schema[..i])) + [] == start + CustomIds(schema[..i]);
      } else {
        assert start + (CustomIds(schema[..i]) + [schema[i].id]) == (start + CustomIds(schema[..i])) + [schema[i].id];
      }
    }

    /** One turn of the schema loop: the entry goes into the mapping under its key, and a custom id onto the shared list. */
    static method AddSchemaEntry(extension: SchemaEntry, m: Dict<string>, shared: SharedCustomAttributes) returns (m': Dict<string>)
      modifies shared
      ensures m' == m.Set(KeyOf(extension), extension.id)
      ensures shared.ids == old(shared.ids) + (if extension.IsBuiltIn() then [] else [extension.id])
    {
      if extension.IsBuiltIn() {
        m' := m.Set(extension.id, extension.id);
        assert shared.ids + [] == shared.ids;
      } else {
        var displayName := Text.Lower(extension.displayName);
        shared.ids := shared.ids + [extension.id];
        m' := m.Set(displayName, extension.id);
      }
    }

    /** `get_attributes`: recomputes the combined list, which already holds that value, and returns it. */
    method GetAttributes() returns (attributes: seq<string>)
      requires Valid()
      modifies this`allAttributes
      ensures Valid()
      ensures attributes == allAttributes == AllAttributes(userflowAttributes)
      ensures allAttributes == old(allAttributes)
    {
      allAttributes := AllAttributes(userflowAttributes);
      attributes := allAttributes;
    }

    /**
     * The validation loop of `list`: the base attributes plus the id of every included name; the
     * first name that is not a mapping key raises, naming every allowed key.
     */
    method SelectAttributes(includeAttributes: seq<string>) returns (r: Result<set<string>, Error>)
      ensures Listing.FirstUnknown(includeAttributes, mapping.entries.Keys).Some? ==>
                r == Failure(UnknownAttribute(includeAttributes[Listing.FirstUnknown(includeAttributes, mapping.entries.Keys).value], mapping.order))
      ensures Listing.FirstUnknown(includeAttributes, mapping.entries.Keys).None? ==>
                r == Success((set a | a in BASE_USER_ATTRIBUTES) + (set a | a in includeAttributes :: mapping.entries[a]))
    {
      var attributesToFetch := set a | a in BASE_USER_ATTRIBUTES;
      var i := 0;
      while i < |includeAttributes|
        invariant 0 <= i <= |includeAttributes|
        invariant forall j :: 0 <= j < i ==> includeAttributes[j] in mapping.entries
        invariant attributesToFetch == (set a | a in BASE_USER_ATTRIBUTES) + (set a | a in includeAttributes[..i] :: mapping.entries[a])
      {
        var includeAttribute := includeAttributes[i];
        if includeAttribute !in mapping.entries {
          return Failure(UnknownAttribute(includeAttribute, mapping.order));
        }
        assert includeAttributes[..i + 1] == includeAttributes[..i] + [includeAttribute];
        attributesToFetch := attributesToFetch + {mapping.entries[includeAttribute]};
        i := i + 1;
      }
      assert includeAttributes[..i] == includeAttributes;
      return Success(attributesToFetch);
    }

    /** The `max == 0` loop of `list`: follows `@odata.nextLink` from page to page, gathering every page's users. */
    static method FetchAll(pages: seq<Listing.Page>) returns (allCustomers: seq<Record>)
      requires Listing.HasLastPage(pages)
      ensures allCustomers == Listing.Collected(pages)
    {
      ghost var last := Listing.LastPage(pages);
      var fetchCustomers := pages[0];
      allCustomers := fetchCustomers.value;
      assert pages[..1][..0] == [];
      var n := 0;
      while fetchCustomers.nextLink.Some?
        invariant 0 <= n <= last
        invariant fetchCustomers == pages[n]
        invariant allCustomers == Listing.Flatten(pages[..n + 1])
        decreases last - n
      {
        n := n + 1;
        fetchCustomers := pages[n];
        assert pages[..n + 1][..n] == pages[..n];
        allCustomers := allCustomers + fetchCustomers.value;
      }
    }

    /** The inner renaming loop of `list`, over one record's items in order. */
    static method RemapCustomer(customer: Record, custom: seq<string>, reversed: map<string, string>)
      returns (r: Result<Record, Error>)
      requires customer.Valid()
      ensures r == Listing.RemapRecord(customer, custom, reversed)
    {
      var remappedCustomer := Empty();
      var j := 0;
      while j < |customer.order|
        invariant 0 <= j <= |customer.order|
        invariant Listing.RemapKeys(customer, customer.order[..j], custom, reversed) == Success(remappedCustomer)
      {
        var attribute := customer.order[j];
        var value := customer.entries[attribute];
        Listing.RemapKeysStep(customer, customer.order, j, custom, reversed);
        if attribute in custom {
          if attribute !in reversed {
            Listing.RemapKeysFailurePersists(customer, customer.order, j + 1, custom, reversed);
            return Failure(KeyError(attribute));
          }
          remappedCustomer := remappedCustomer.Set(reversed[attribute], value);
        } else {
          remappedCustomer := remappedCustomer.Set(attribute, value);
        }
        j := j + 1;
      }
      assert customer.order[..j] == customer.order;
      return Success(remappedCustomer);
    }

    /**
     * The renaming loops of `list`: every key of every record that is in the shared custom list is
     * replaced by its name in the reversed mapping; a key without one raises.
     */
    method Remap(allCustomers: seq<Record>, reversed: map<string, string>) returns (r: Result<seq<Record>, Error>)
      requires Listing.RecordsValid(allCustomers)
      ensures r == Listing.RemapAll(allCustomers, customAttributes.ids, reversed)
    {
      var custom := customAttributes.ids;
      var mappedCustomers: seq<Record> := [];
      var i := 0;
      while i < |allCustomers|
        invariant 0 <= i <= |allCustomers|
        invariant Listing.RemapAll(allCustomers[..i], custom, reversed) == Success(mappedCustomers)
      {
        Listing.RemapAllStep(allCustomers, i, custom, reversed);
        var remapped := RemapCustomer(allCustomers[i], custom, reversed);
        if remapped.Failure? {
          Listing.RemapAllFailurePersists(allCustomers, i + 1, custom, reversed);
          return Failure(remapped.error);
        }
        mappedCustomers := mappedCustomers + [remapped.value];
        i := i + 1;
      }
      assert allCustomers[..i] == allCustomers;
      return Success(mappedCustomers);
    }

    /**
     * `list`, given the pages the paged listing returns and the response of the bounded listing.
     * An unknown included attribute raises whatever the server would return, and so does a max
     * above 999; a max of 0 gathers and renames every page; any other max, negative ones included,
     * takes the bounded branch.
     */
    method List(max: int, includeAttributes: seq<string>, pages: seq<Listing.Page>, response: Record)
      returns (r: Result<seq<Record>, Error>)
      requires Valid()
      requires Listing.PagesValid(pages)
      requires Listing.FirstUnknown(includeAttributes, mapping.entries.Keys).None? && max == 0 ==> Listing.HasLastPage(pages)
      ensures Listing.FirstUnknown(includeAttributes, mapping.entries.Keys).Some? ==>
                r == Failure(UnknownAttribute(includeAttributes[Listing.FirstUnknown(includeAttributes, mapping.entries.Keys).value], mapping.order))
      ensures Listing.FirstUnknown(includeAttributes, mapping.entries.Keys).None? && max > 999 ==>
                r == Failure(MaxOutOfRange(max))
      ensures Listing.FirstUnknown(includeAttributes, mapping.entries.Keys).None? && max == 0 ==>
                Listing.RecordsValid(Listing.Collected(pages)) &&
                r == Listing.RemapAll(Listing.Collected(pages), customAttributes.ids, Invert(mapping))
      ensures Listing.FirstUnknown(includeAttributes, mapping.entries.Keys).None? && max != 0 && max <= 999 ==>
                r == Listing.BoundedAsWritten(response)
    {
      var selected := SelectAttributes(includeAttributes);
      if selected.Failure? {
        return Failure(selected.error);
      }
      var allCustomers: seq<Record>;
      if max == 0 {
        allCustomers := FetchAll(pages);
        var collected := pages[..Listing.LastPage(pages) + 1];
        assert Listing.PagesValid(collected) by {
          forall p | 0 <= p < |collected| ensures Listing.RecordsValid(collected[p].value) {
            assert collected[p] == pages[p];
          }
        }
        Listing.FlattenValid(collected);
      } else if max <= 999 {
        // `all_customers` is the response object itself; its first key is a string without `.items()`.
        if response.order != [] {
          return Failure(AttributeError(response.order[0]));
        }
        allCustomers := [];
      } else {
        return Failure(MaxOutOfRange(max));
      }
      var reversed := Invert(mapping);
      r := Remap(allCustomers, reversed);
    }

    /**
     * `profile`, given the sparse record the server returned: every mapping key present, holding the
     * server's value at its id or None where the server omitted that id, then the denylist removed.
     */
    method Profile(graphUserProfile: Record) returns (userProfile: Record)
      requires Valid()
      ensures userProfile.Valid()
      ensures userProfile.entries.Keys == mapping.entries.Keys - set u | u in UNWANTED_ATTRIBUTES
      ensures forall a :: a in userProfile.entries ==>
                userProfile.entries[a] == Get(graphUserProfile, mapping.entries[a])
    {
      userProfile := Empty();
      var i := 0;
      while i < |mapping.order|
        invariant 0 <= i <= |mapping.order|
        invariant userProfile.Valid()
        invariant forall a :: a in userProfile.entries <==> a in mapping.order[..i]
        invariant forall a :: a in userProfile.entries ==>
                    a in mapping.entries && userProfile.entries[a] == Get(graphUserProfile, mapping.entries[a])
      {
        var attribute := mapping.order[i];
        var mappedAttribute := mapping.entries[attribute];
        assert mapping.order[..i + 1] == mapping.order[..i] + [attribute];
        userProfile := userProfile.Set(attribute,
          if mappedAttribute in graphUserProfile.entries then graphUserProfile.entries[mappedAttribute] else Null);
        i := i + 1;
      }
      assert mapping.order[..i] == mapping.order;
      userProfile := PopAll(userProfile, UNWANTED_ATTRIBUTES);
    }

    /** The denylist loop of `profile`: `pop(key, "")` of each key in turn, absent keys being ignored. */
    static method PopAll(d: Record, keys: seq<string>) returns (r: Record)
      requires d.Valid()
      ensures r.Valid()
      ensures forall a :: a in r.entries <==> a in d.entries && a !in keys
      ensures forall a :: a in r.entries ==> r.entries[a] == d.entries[a]
    {
      r := d;
      var j := 0;
      while j < |keys|
        invariant 0 <= j <= |keys|
        invariant r.Valid()
        invariant forall a :: a in r.entries <==> a in d.entries && a !in keys[..j]
        invariant forall a :: a in r.entries ==> r.entries[a] == d.entries[a]
      {
        PopStep(d, keys, j, r);
        r := r.Pop(keys[j]);
        j := j + 1;
      }
      assert keys[..j] == keys;
    }

    /** One turn of the denylist loop: popping the next key keeps the dict well formed and drops just that key. */
    static lemma PopStep(d: Record, keys: seq<string>, j: nat, r: Record)
      requires j < |keys|
      requires r.Valid()
      requires forall a :: a in r.entries <==> a in d.entries && a !in keys[..j]
      requires forall a :: a in r.entries ==> r.entries[a] == d.entries[a]
      ensures r.Pop(keys[j]).Valid()
      ensures forall a :: a in r.Pop(keys[j]).entries <==> a in d.entries && a !in keys[..j + 1]
      ensures forall a :: a in r.Pop(keys[j]).entries ==> r.Pop(keys[j]).entries[a] == d.entries[a]
    {
      assert keys[..j + 1] == keys[..j] + [keys[j]];
    }

    /** The known-field loop of `create` and `update`: each mapping key the user supplies, sent under its id. */
    method MapKnownFields(user: Record) returns (payload: Record)
      requires Valid()
      ensures payload == Payloads.Translated(mapping, user)
    {
      payload := Empty();
      var i := 0;
      while i < |mapping.order|
        invariant 0 <= i <= |mapping.order|
        invariant payload == Payloads.TranslateKeys(mapping, mapping.order[..i], user)
      {
        var attribute := mapping.order[i];
        var mappedAttribute := mapping.entries[attribute];
        assert mapping.order[..i + 1][..i] == mapping.order[..i];
        if attribute in user.entries {
          payload := payload.Set(mappedAttribute, user.entries[attribute]);
        }
        i := i + 1;
      }
      assert mapping.order[..i] == mapping.order;
    }

    /**
     * The body `create` posts: the translated known fields, then the display name (by default
     * "<givenName> <surname>"), the mail, an enabled account without password expiry, the password
     * profile and one local email identity issued by the tenant. A missing email or password raises.
     */
    method Create(user: Record) returns (r: Result<Record, Error>)
      requires Valid()
      ensures "email" !in user.entries ==> r == Failure(KeyError("email"))
      ensures "email" in user.entries && "password" !in user.entries ==> r == Failure(KeyError("password"))
      ensures "email" in user.entries && "password" in user.entries ==> r.Success?
      ensures r.Success? ==>
                && r.value.Valid()
                && (forall id :: id in r.value.entries <==>
                      id in Payloads.CREATE_KEYS
                      || exists a :: a in mapping.entries && a in user.entries && mapping.entries[a] == id)
                && (forall id :: id in r.value.entries && id !in Payloads.CREATE_KEYS ==>
                      exists a :: a in mapping.entries && a in user.entries && mapping.entries[a] == id
                                  && r.value.entries[id] == user.entries[a])
                && r.value.entries["displayName"] ==
                     (if "displayName" in user.entries then user.entries["displayName"]
                      else Str(Payloads.DefaultDisplayName(user)))
                && r.value.entries["mail"] == user.entries["email"]
                && r.value.entries["accountEnabled"] == Bool(true)
                && r.value.entries["passwordPolicies"] == Str("DisablePasswordExpiration")
                && r.value.entries["passwordProfile"] == Object(Payloads.PasswordProfile(user.entries["password"]))
                && r.value.entries["identities"] == Array([Object(Payloads.LocalIdentity(tenantName, user.entries["email"]))])
    {
      var mappedNewUser := MapKnownFields(user);
      Payloads.TranslatedContents(mapping, user);
      var displayName := if "displayName" in user.entries then user.entries["displayName"]
                         else Str(Payloads.DefaultDisplayName(user));
      if "email" !in user.entries {
        return Failure(KeyError("email"));
      }
      if "password" !in user.entries {
        return Failure(KeyError("password"));
      }
      Payloads.SetCreateKeys(mappedNewUser, displayName, user.entries["email"], Bool(true), Str("DisablePasswordExpiration"),
        Object(Payloads.PasswordProfile(user.entries["password"])),
        Array([Object(Payloads.LocalIdentity(tenantName, user.entries["email"]))]));
      Payloads.CreateBodyFixedFields(mappedNewUser, displayName, user.entries["email"], user.entries["password"], tenantName);
      mappedNewUser := Payloads.CreateBody(mappedNewUser, displayName, user.entries["email"], user.entries["password"], tenantName);
      return Success(mappedNewUser);
    }

    /**
     * The body `update` patches: exactly the ids of the mapping keys the user supplies, each with a
     * value supplied under a name with that id; names outside the mapping are dropped.
     */
    method Update(user: Record) returns (payload: Record)
      requires Valid()
      ensures payload.Valid()
      ensures forall id :: id in payload.entries <==>
                exists a :: a in mapping.entries && a in user.entries && mapping.entries[a] == id
      ensures forall id :: id in payload.entries ==>
                exists a :: a in mapping.entries && a in user.entries && mapping.entries[a] == id
                            && payload.entries[id] == user.entries[a]
      ensures forall a :: a in mapping.entries && a in user.entries &&
                (forall b :: b in mapping.entries && b in user.entries && b != a ==> mapping.entries[b] != mapping.entries[a])
                ==> mapping.entries[a] in payload.entries && payload.entries[mapping.entries[a]] == user.entries[a]
    {
      payload := MapKnownFields(user);
      Payloads.TranslatedContents(mapping, user);
    }

    /** The body `change_password` patches: only the password profile, with no forced change. */
    static method ChangePassword(password: string) returns (payload: Record)
      ensures payload.Valid()
      ensures payload.entries.Keys == {"passwordProfile"}
      ensures payload.entries["passwordProfile"] == Object(Payloads.PasswordProfile(Str(password)))
      ensures payload.entries["passwordProfile"].fields.entries.Keys == {"password", "forceChangePasswordNextSignIn"}
      ensures payload.entries["passwordProfile"].fields.entries["password"] == Str(password)
      ensures payload.entries["passwordProfile"].fields.entries["forceChangePasswordNextSignIn"] == Bool(false)
    {
      payload := Empty();
      payload := payload.Set("passwordProfile", Object(Payloads.PasswordProfile(Str(password))));
    }
  }

  /**
   * What the class-level list leads to: a custom id left there by an earlier instance, which the
   * later instance's schema does not have, is still renamed by `list` and has no name to go to,
   * so a record carrying it raises `KeyError`.
   */
  lemma StaleCustomIdRaises(earlier: seq<SchemaEntry>, later: seq<SchemaEntry>, id: string, v: Value)
    requires id in CustomIds(earlier)
    requires forall j :: 0 <= j < |later| ==> later[j].id != id
    ensures && BuildMapping(later).Valid()
            && var rec := Empty<Value>().Set(id, v);
               Listing.RemapRecord(rec, CustomIds(earlier) + CustomIds(later), Invert(BuildMapping(later))) == Failure(KeyError(id))
  {
    var m := BuildMapping(later);
    MappingValid(later);
    InvertIsRightInverse(m);
    forall k | k in m.entries ensures m.entries[k] != id {
      MappingValueIsLastId(later, k);
    }
    Listing.RemapSingleUnnamed(id, v, CustomIds(earlier) + CustomIds(later), Invert(m));
  }

  /**
   * Two instances built one after the other on the same class-level list: the second one's `list`
   * raises `KeyError` on a record carrying a custom id that only the first one's schema has.
   */
  method SecondInstanceKeepsStaleId(tenantName: string, earlier: seq<SchemaEntry>, later: seq<SchemaEntry>, id: string, v: Value)
    returns (r: Result<seq<Record>, Error>)
    requires id in CustomIds(earlier)
    requires forall j :: 0 <= j < |later| ==> later[j].id != id
    ensures r == Failure(KeyError(id))
  {
    var shared := new SharedCustomAttributes();
    var first := new User(tenantName, earlier, shared);
    assert shared.ids == [] + CustomIds(earlier) == CustomIds(earlier);
    var second := new User(tenantName, later, shared);
    assert shared.ids == CustomIds(earlier) + CustomIds(later);
    assert second.customAttributes == shared && second.mapping == BuildMapping(later);
    var rec := Empty<Value>().Set(id, v);
    var reversed := Invert(second.mapping);
    StaleCustomIdRaises(earlier, later, id, v);
    Listing.RemapAllSingle(rec, shared.ids, reversed);
    assert Listing.RemapAll([rec], shared.ids, reversed) == Failure(KeyError(id));
    r := second.Remap([rec], reversed);
  }
}

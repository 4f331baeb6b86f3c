/**
 * The tenant's user-flow attribute schema and the tables the client builds from it:
 * the name-to-id mapping, the ids of custom attributes, the combined attribute list
 * and the inverse of the mapping.
 */
module Schema {
  import opened PyDict
  import Text

  /** One entry of `/identity/userFlowAttributes`. */
  datatype SchemaEntry = SchemaEntry(id: string, displayName: string, userFlowAttributeType: string) {
    predicate IsBuiltIn() {
      userFlowAttributeType == "builtIn"
    }
  }

  const BASE_USER_ATTRIBUTES: seq<string> :=
    ["id", "givenName", "surname", "jobTitle", "mail", "creationType", "identities", "accountEnabled"]
  const EXTENDED_USER_ATTRIBUTES: seq<string> := ["id", "ageGroup", "createdDateTime", "userType"]
  const UNWANTED_ATTRIBUTES: seq<string> :=
    ["emails", "jobTitle", "legalAgeGroupClassification", "newUser", "ObjectId"]

  /** The mapping key of an entry: a built-in id names itself, a custom attribute goes by its lower-cased display name. */
  function KeyOf(e: SchemaEntry): string {
    if e.IsBuiltIn() then e.id else Text.Lower(e.displayName)
  }

  /** `userflow_user_attributes`: the schema ids, in schema order. */
  function Ids(schema: seq<SchemaEntry>): seq<string> {
    seq(|schema|, i requires 0 <= i < |schema| => schema[i].id)
  }

  /** `all_user_attributes`: base, then extended, then user-flow attributes. */
  function AllAttributes(userflow: seq<string>): (r: seq<string>)
    ensures |r| == |BASE_USER_ATTRIBUTES| + |EXTENDED_USER_ATTRIBUTES| + |userflow|
    ensures r[|BASE_USER_ATTRIBUTES| + |EXTENDED_USER_ATTRIBUTES|..] == userflow
  {
    BASE_USER_ATTRIBUTES + EXTENDED_USER_ATTRIBUTES + userflow
  }

  /** The ids the constructor appends to the shared custom-attribute list, in schema order. */
  function CustomIds(schema: seq<SchemaEntry>): seq<string> {
    if schema == [] then []
    else
      var last := schema[|schema| - 1];
      CustomIds(schema[..|schema| - 1]) + (if last.IsBuiltIn() then [] else [last.id])
  }

  /** `userflow_attribute_mapping`: a left fold of the schema, later entries overwriting earlier ones. */
  function BuildMapping(schema: seq<SchemaEntry>): Dict<string> {
    if schema == [] then Empty()
    else
      var last := schema[|schema| - 1];
      BuildMapping(schema[..|schema| - 1]).Set(KeyOf(last), last.id)
  }

  /** One more turn of the constructor's loop: entry i is added to the mapping and, when custom, to the id list. */
  lemma BuildStep(schema: seq<SchemaEntry>, i: nat)
    requires i < |schema|
    ensures BuildMapping(schema[..i + 1]) == BuildMapping(schema[..i]).Set(KeyOf(schema[i]), schema[i].id)
    ensures schema[i].IsBuiltIn() ==> CustomIds(schema[..i + 1]) == CustomIds(schema[..i])
    ensures !schema[i].IsBuiltIn() ==> CustomIds(schema[..i + 1]) == CustomIds(schema[..i]) + [schema[i].id]
  {
    assert schema[..i + 1][..i] == schema[..i];
    assert CustomIds(schema[..i]) + [] == CustomIds(schema[..i]);
  }

  /** The dict comprehension `{v: k for k, v in m.items()}` over the given keys: a later key wins a shared value. */
  function InvertKeys(entries: map<string, string>, keys: seq<string>): map<string, string>
    requires forall k :: k in keys ==> k in entries
  {
    if keys == [] then map[]
    else
      var last := keys[|keys| - 1];
      InvertKeys(entries, keys[..|keys| - 1])[entries[last] := last]
  }

  /** The reversed mapping used to rename custom ids back to attribute names. */
  function Invert(m: Dict<string>): map<string, string>
    requires m.Valid()
  {
    InvertKeys(m.entries, m.order)
  }

  /** The mapping is a well-formed dict: its key order lists each key once. */
  lemma {:induction false} MappingValid(schema: seq<SchemaEntry>)
    ensures BuildMapping(schema).Valid()
  {
    if schema != [] {
      MappingValid(schema[..|schema| - 1]);
    }
  }

  /** The mapping's keys are exactly the keys of the schema's entries. */
  lemma {:induction false} MappingKeys(schema: seq<SchemaEntry>)
    ensures forall k :: k in BuildMapping(schema).entries <==> exists i :: 0 <= i < |schema| && KeyOf(schema[i]) == k
  {
    if schema != [] {
      var init := schema[..|schema| - 1];
      MappingKeys(init);
      forall k | exists i :: 0 <= i < |schema| && KeyOf(schema[i]) == k
        ensures k in BuildMapping(schema).entries
      {
        var i :| 0 <= i < |schema| && KeyOf(schema[i]) == k;
        if i < |init| {
          assert KeyOf(init[i]) == k;
        }
      }
    }
  }

  /** The value under an entry's key is that entry's id when no later entry has the same key (last write wins). */
  lemma {:induction false} MappingLastWins(schema: seq<SchemaEntry>, i: nat)
    requires i < |schema|
    requires forall j :: i < j < |schema| ==> KeyOf(schema[j]) != KeyOf(schema[i])
    ensures KeyOf(schema[i]) in BuildMapping(schema).entries
    ensures BuildMapping(schema).entries[KeyOf(schema[i])] == schema[i].id
  {
    if i < |schema| - 1 {
      var init := schema[..|schema| - 1];
      MappingLastWins(init, i);
    }
  }

  /** The index of the last entry whose key is k, or -1 when there is none. */
  function LastIndexOfKey(schema: seq<SchemaEntry>, k: string): (r: int)
    ensures -1 <= r < |schema|
    ensures r >= 0 ==> KeyOf(schema[r]) == k
    ensures forall j :: r < j < |schema| ==> KeyOf(schema[j]) != k
  {
    if schema == [] then -1
    else if KeyOf(schema[|schema| - 1]) == k then |schema| - 1
    else
      var init := schema[..|schema| - 1];
      assert forall j :: 0 <= j < |init| ==> init[j] == schema[j];
      LastIndexOfKey(init, k)
  }

  /** Every value of the mapping is the id of the last entry with that key. */
  lemma MappingValueIsLastId(schema: seq<SchemaEntry>, k: string)
    requires k in BuildMapping(schema).entries
    ensures LastIndexOfKey(schema, k) >= 0
    ensures BuildMapping(schema).entries[k] == schema[LastIndexOfKey(schema, k)].id
  {
    MappingKeys(schema);
    var i := LastIndexOfKey(schema, k);
    MappingLastWins(schema, i);
  }

  /** A built-in entry not overwritten later maps its id to itself. */
  lemma BuiltInMapsToItself(schema: seq<SchemaEntry>, i: nat)
    requires i < |schema| && schema[i].IsBuiltIn()
    requires forall j :: i < j < |schema| ==> KeyOf(schema[j]) != schema[i].id
    ensures schema[i].id in BuildMapping(schema).entries
    ensures BuildMapping(schema).entries[schema[i].id] == schema[i].id
  {
    MappingLastWins(schema, i);
  }

  /** A custom entry not overwritten later maps its lower-cased display name to its id. */
  lemma CustomMapsFromLowerName(schema: seq<SchemaEntry>, i: nat)
    requires i < |schema| && !schema[i].IsBuiltIn()
    requires forall j :: i < j < |schema| ==> KeyOf(schema[j]) != Text.Lower(schema[i].displayName)
    ensures Text.Lower(schema[i].displayName) in BuildMapping(schema).entries
    ensures BuildMapping(schema).entries[Text.Lower(schema[i].displayName)] == schema[i].id
  {
    MappingLastWins(schema, i);
  }

  /** The custom-attribute ids are exactly the ids of the entries that are not built in. */
  lemma {:induction false} CustomIdsMembership(schema: seq<SchemaEntry>)
    ensures |CustomIds(schema)| <= |schema|
    ensures forall x :: x in CustomIds(schema) <==> exists i :: 0 <= i < |schema| && !schema[i].IsBuiltIn() && schema[i].id == x
  {
    if schema != [] {
      var init := schema[..|schema| - 1];
      CustomIdsMembership(init);
      forall x | exists i :: 0 <= i < |schema| && !schema[i].IsBuiltIn() && schema[i].id == x
        ensures x in CustomIds(schema)
      {
        var i :| 0 <= i < |schema| && !schema[i].IsBuiltIn() && schema[i].id == x;
        if i < |init| {
          assert !init[i].IsBuiltIn() && init[i].id == x;
        }
      }
    }
  }

  /** The inverse over some keys: its keys are their values, and looking a value up gives a key holding it. */
  lemma {:induction false} InvertKeysSound(entries: map<string, string>, keys: seq<string>)
    requires forall k :: k in keys ==> k in entries
    ensures forall v :: v in InvertKeys(entries, keys) <==> exists k :: k in keys && entries[k] == v
    ensures forall v :: v in InvertKeys(entries, keys) ==>
              InvertKeys(entries, keys)[v] in keys && entries[InvertKeys(entries, keys)[v]] == v
  {
    if keys != [] {
      var init := keys[..|keys| - 1];
      InvertKeysSound(entries, init);
      forall v | exists k :: k in keys && entries[k] == v
        ensures v in InvertKeys(entries, keys)
      {
        var k :| k in keys && entries[k] == v;
        if k != keys[|keys| - 1] {
          assert k in init;
        }
      }
    }
  }

  /** Among the keys sharing a value, the inverse picks the last one in the given order. */
  lemma {:induction false} InvertKeysLastWins(entries: map<string, string>, keys: seq<string>, i: nat)
    requires forall k :: k in keys ==> k in entries
    requires i < |keys|
    requires forall j :: i < j < |keys| ==> entries[keys[j]] != entries[keys[i]]
    ensures entries[keys[i]] in InvertKeys(entries, keys)
    ensures InvertKeys(entries, keys)[entries[keys[i]]] == keys[i]
  {
    if i < |keys| - 1 {
      InvertKeysLastWins(entries, keys[..|keys| - 1], i);
    }
  }

  /**
   * The reversed mapping is a right inverse of the mapping: its keys are exactly the mapped ids,
   * and the mapping sends the name it gives back to the same id.
   */
  lemma InvertIsRightInverse(m: Dict<string>)
    requires m.Valid()
    ensures forall v :: v in Invert(m) <==> v in m.entries.Values
    ensures forall v :: v in Invert(m) ==> Invert(m)[v] in m.entries && m.entries[Invert(m)[v]] == v
  {
    InvertKeysSound(m.entries, m.order);
    forall v | v in m.entries.Values
      ensures v in Invert(m)
    {
      var k :| k in m.entries && m.entries[k] == v;
      assert k in m.order;
    }
  }
}

/**
 * What `User.list` computes: which requested attributes are accepted, how the pages
 * of a paged listing are gathered, and how custom ids in the returned records are
 * renamed back to attribute names.
 */
module Listing {
  import opened Wrappers
  import opened Errors
  import opened PyDict
  import opened Json
  import Schema
  import Payloads

  /** The index of the first name that is not known, if any. */
  function FirstUnknown(names: seq<string>, known: set<string>): (r: Option<nat>)
    ensures r.None? <==> forall a :: a in names ==> a in known
    ensures r.Some? ==> r.value < |names| && names[r.value] !in known
    ensures r.Some? ==> forall j :: 0 <= j < r.value ==> names[j] in known
  {
    if names == [] then None
    else if names[0] !in known then Some(0)
    else
      match FirstUnknown(names[1..], known)
      case None => None
      case Some(i) => Some(i + 1)
  }

  // ---------------------------------------------------------------- pages

  /** One response of the paged listing: its users and the optional `@odata.nextLink`. */
  datatype Page = Page(value: seq<Record>, nextLink: Option<string>)

  /** Every record is a well-formed dict. */
  ghost predicate RecordsValid(records: seq<Record>) {
    forall i :: 0 <= i < |records| ==> records[i].Valid()
  }

  ghost predicate PagesValid(pages: seq<Page>) {
    forall p :: 0 <= p < |pages| ==> RecordsValid(pages[p].value)
  }

  /** Some page of the sequence carries no next link, so following the links stops. */
  predicate HasLastPage(pages: seq<Page>) {
    exists i :: 0 <= i < |pages| && pages[i].nextLink.None?
  }

  /** The index of the page where following next links stops: the first page without one. */
  function LastPage(pages: seq<Page>): (n: nat)
    requires HasLastPage(pages)
    ensures n < |pages| && pages[n].nextLink.None?
    ensures forall j :: 0 <= j < n ==> pages[j].nextLink.Some?
  {
    if pages[0].nextLink.None? then 0
    else
      assert HasLastPage(pages[1..]) by {
        var i :| 0 <= i < |pages| && pages[i].nextLink.None?;
        assert pages[1..][i - 1].nextLink.None?;
      }
      1 + LastPage(pages[1..])
  }

  /** The users of the pages, page after page. */
  function Flatten(pages: seq<Page>): seq<Record> {
    if pages == [] then [] else Flatten(pages[..|pages| - 1]) + pages[|pages| - 1].value
  }

  /** The number of users over all pages. */
  function TotalSize(pages: seq<Page>): nat {
    if pages == [] then 0 else TotalSize(pages[..|pages| - 1]) + |pages[|pages| - 1].value|
  }

  /** Everything the `max == 0` listing gathers: every page up to and including the first without a next link. */
  function Collected(pages: seq<Page>): seq<Record>
    requires HasLastPage(pages)
  {
    Flatten(pages[..LastPage(pages) + 1])
  }

  /** The gathered list is as long as all the gathered pages together. */
  lemma {:induction false} FlattenLength(pages: seq<Page>)
    ensures |Flatten(pages)| == TotalSize(pages)
  {
    if pages != [] {
      FlattenLength(pages[..|pages| - 1]);
    }
  }

  /** User j of page p sits in the gathered list right after every user of the earlier pages. */
  lemma {:induction false} FlattenIndex(pages: seq<Page>, p: nat, j: nat)
    requires p < |pages| && j < |pages[p].value|
    ensures TotalSize(pages[..p]) + j < |Flatten(pages)|
    ensures Flatten(pages)[TotalSize(pages[..p]) + j] == pages[p].value[j]
  {
    var init := pages[..|pages| - 1];
    FlattenLength(pages);
    FlattenLength(init);
    if p < |pages| - 1 {
      FlattenIndex(init, p, j);
      assert init[..p] == pages[..p];
    } else {
      assert pages[..p] == init;
    }
  }

  /** Gathering keeps every record a well-formed dict. */
  lemma {:induction false} FlattenValid(pages: seq<Page>)
    requires PagesValid(pages)
    ensures RecordsValid(Flatten(pages))
  {
    if pages != [] {
      var init := pages[..|pages| - 1];
      FlattenValid(init);
      assert RecordsValid(pages[|pages| - 1].value);
    }
  }

  /** Three pages of 999, 999 and 42 users, the last without a next link, gather 2040 users. */
  lemma ThreePagesGather2040(pages: seq<Page>)
    requires |pages| == 3
    requires |pages[0].value| == 999 && |pages[1].value| == 999 && |pages[2].value| == 42
    requires pages[0].nextLink.Some? && pages[1].nextLink.Some? && pages[2].nextLink.None?
    ensures HasLastPage(pages)
    ensures |Collected(pages)| == 2040
  {
    assert LastPage(pages) == 2 by {
      assert LastPage(pages[1..]) == 1 by {
        assert LastPage(pages[1..][1..]) == 0;
      }
    }
    assert pages[..3] == pages;
    FlattenLength(pages);
    assert pages[..2] == pages[..|pages| - 1];
    assert pages[..2][..1] == pages[..1];
    assert pages[..1][..0] == [];
    assert TotalSize(pages[..1]) == 999;
    assert TotalSize(pages[..2]) == 1998;
  }

  // ---------------------------------------------------------------- renaming

  /** The remap step would look k up in the reversed mapping and find it, or does not look it up at all. */
  predicate CanRename(k: string, custom: seq<string>, reversed: map<string, string>) {
    k in custom ==> k in reversed
  }

  /** The name a key gets: a custom id becomes its attribute name, every other key stays. */
  function NewName(k: string, custom: seq<string>, reversed: map<string, string>): string {
    if k in custom && k in reversed then reversed[k] else k
  }

  /** The remap loop over the given keys of one record, in order; the first key it cannot rename raises. */
  function RemapKeys(rec: Record, keys: seq<string>, custom: seq<string>, reversed: map<string, string>): Result<Record, Error>
    requires forall k :: k in keys ==> k in rec.entries
  {
    if keys == [] then Success(Empty())
    else
      var last := keys[|keys| - 1];
      var prev := RemapKeys(rec, keys[..|keys| - 1], custom, reversed);
      if prev.Failure? then prev
      else if !CanRename(last, custom, reversed) then Failure(KeyError(last))
      else Success(prev.value.Set(NewName(last, custom, reversed), rec.entries[last]))
  }

  /** One record with its custom ids renamed. */
  function RemapRecord(rec: Record, custom: seq<string>, reversed: map<string, string>): Result<Record, Error>
    requires rec.Valid()
  {
    RemapKeys(rec, rec.order, custom, reversed)
  }

  /** The outcome of renaming each record on its own, in order. */
  function Outcomes(records: seq<Record>, custom: seq<string>, reversed: map<string, string>): (rs: seq<Result<Record, Error>>)
    requires RecordsValid(records)
    ensures |rs| == |records|
    ensures forall i :: 0 <= i < |records| ==> rs[i] == RemapRecord(records[i], custom, reversed)
  {
    seq(|records|, i requires 0 <= i < |records| => RemapRecord(records[i], custom, reversed))
  }

  /** The loop over the records, given each one's outcome: the first error raised, or every renamed record in order. */
  function FirstFailure(rs: seq<Result<Record, Error>>): Result<seq<Record>, Error> {
    if rs == [] then Success([])
    else
      var prev := FirstFailure(rs[..|rs| - 1]);
      var last := rs[|rs| - 1];
      if prev.Failure? then prev
      else if last.Failure? then Failure(last.error)
      else Success(prev.value + [last.value])
  }

  /** Every record renamed, in order; the first record that cannot be renamed raises. */
  function RemapAll(records: seq<Record>, custom: seq<string>, reversed: map<string, string>): Result<seq<Record>, Error>
    requires RecordsValid(records)
  {
    FirstFailure(Outcomes(records, custom, reversed))
  }

  /** Renaming fails exactly when some key cannot be renamed, and then names the first such key. */
  lemma {:induction false} RemapKeysOutcome(rec: Record, keys: seq<string>, custom: seq<string>, reversed: map<string, string>)
    requires forall k :: k in keys ==> k in rec.entries
    ensures RemapKeys(rec, keys, custom, reversed).Success? <==> forall k :: k in keys ==> CanRename(k, custom, reversed)
    ensures RemapKeys(rec, keys, custom, reversed).Failure? ==>
              exists i :: 0 <= i < |keys| && !CanRename(keys[i], custom, reversed)
                          && (forall j :: 0 <= j < i ==> CanRename(keys[j], custom, reversed))
                          && RemapKeys(rec, keys, custom, reversed).error == KeyError(keys[i])
  {
    if keys != [] {
      var n := |keys| - 1;
      var init := keys[..n];
      var last := keys[n];
      RemapKeysOutcome(rec, init, custom, reversed);
      var prev := RemapKeys(rec, init, custom, reversed);
      var r := RemapKeys(rec, keys, custom, reversed);
      if prev.Failure? {
        assert r == prev;
        var i :| 0 <= i < |init| && !CanRename(init[i], custom, reversed)
                 && (forall j :: 0 <= j < i ==> CanRename(init[j], custom, reversed))
                 && prev.error == KeyError(init[i]);
        assert keys[i] == init[i];
        assert forall j :: 0 <= j < i ==> keys[j] == init[j];
      } else {
        assert forall j :: 0 <= j < n ==> keys[j] == init[j] && CanRename(init[j], custom, reversed);
        if !CanRename(last, custom, reversed) {
          assert r == Failure(KeyError(keys[n]));
        } else {
          assert r.Success?;
          forall k | k in keys ensures CanRename(k, custom, reversed) {
            var j :| 0 <= j < |keys| && keys[j] == k;
            if j < n { assert init[j] == k; }
          }
        }
      }
    }
  }

  /** A renamed record is a well-formed dict whose keys are the new names of the old keys. */
  lemma {:induction false} RemapKeysNames(rec: Record, keys: seq<string>, custom: seq<string>, reversed: map<string, string>)
    requires forall k :: k in keys ==> k in rec.entries
    requires RemapKeys(rec, keys, custom, reversed).Success?
    ensures RemapKeys(rec, keys, custom, reversed).value.Valid()
    ensures forall n :: n in RemapKeys(rec, keys, custom, reversed).value.entries <==>
              exists k :: k in keys && NewName(k, custom, reversed) == n
  {
    if keys != [] {
      var init := keys[..|keys| - 1];
      var last := keys[|keys| - 1];
      RemapKeysNames(rec, init, custom, reversed);
      var prev := RemapKeys(rec, init, custom, reversed).value;
      var out := RemapKeys(rec, keys, custom, reversed).value;
      assert out == prev.Set(NewName(last, custom, reversed), rec.entries[last]);
      forall n | n in out.entries
        ensures exists k :: k in keys && NewName(k, custom, reversed) == n
      {
        if n != NewName(last, custom, reversed) {
          var k :| k in init && NewName(k, custom, reversed) == n;
          assert k in keys;
        }
      }
      forall n | exists k :: k in keys && NewName(k, custom, reversed) == n
        ensures n in out.entries
      {
        var k :| k in keys && NewName(k, custom, reversed) == n;
        if k != last {
          assert k in init;
        }
      }
    }
  }

  /** The value under a new name is the value of the last key given that name (later keys overwrite). */
  lemma {:induction false} RemapKeysLastWins(rec: Record, keys: seq<string>, custom: seq<string>, reversed: map<string, string>, i: nat)
    requires forall k :: k in keys ==> k in rec.entries
    requires RemapKeys(rec, keys, custom, reversed).Success?
    requires i < |keys|
    requires forall j :: i < j < |keys| ==> NewName(keys[j], custom, reversed) != NewName(keys[i], custom, reversed)
    ensures NewName(keys[i], custom, reversed) in RemapKeys(rec, keys, custom, reversed).value.entries
    ensures RemapKeys(rec, keys, custom, reversed).value.entries[NewName(keys[i], custom, reversed)] == rec.entries[keys[i]]
  {
    if i < |keys| - 1 {
      RemapKeysLastWins(rec, keys[..|keys| - 1], custom, reversed, i);
    }
  }

  /** A prefix of well-formed records is well formed. */
  lemma RecordsValidPrefix(records: seq<Record>, n: nat)
    requires RecordsValid(records) && n <= |records|
    ensures RecordsValid(records[..n])
  {
    forall i | 0 <= i < n ensures records[..n][i].Valid() { assert records[..n][i] == records[i]; }
  }

  /** The loop over the records succeeds exactly when every record does, and then keeps every renamed record in order. */
  lemma {:induction false} FirstFailureShape(rs: seq<Result<Record, Error>>)
    ensures FirstFailure(rs).Success? <==> forall i :: 0 <= i < |rs| ==> rs[i].Success?
    ensures FirstFailure(rs).Success? ==>
              && |FirstFailure(rs).value| == |rs|
              && forall i :: 0 <= i < |rs| ==> rs[i] == Success(FirstFailure(rs).value[i])
  {
    if rs != [] {
      var n := |rs| - 1;
      var init := rs[..n];
      FirstFailureShape(init);
      var prev := FirstFailure(init);
      if prev.Failure? {
        var i :| 0 <= i < n && !init[i].Success?;
        assert rs[i] == init[i];
      } else {
        assert forall i :: 0 <= i < n ==> rs[i] == init[i];
        if rs[n].Success? {
          var out := prev.value + [rs[n].value];
          assert FirstFailure(rs) == Success(out);
          forall i | 0 <= i < n ensures rs[i] == Success(out[i]) {
            assert out[i] == prev.value[i];
          }
        }
      }
    }
  }

  /** Once the loop over some first records has raised, the loop over all of them raises the same error. */
  lemma {:induction false} FirstFailurePersists(rs: seq<Result<Record, Error>>, n: nat)
    requires n <= |rs|
    requires FirstFailure(rs[..n]).Failure?
    ensures FirstFailure(rs) == FirstFailure(rs[..n])
    decreases |rs| - n
  {
    if n == |rs| {
      assert rs[..n] == rs;
    } else {
      var init := rs[..|rs| - 1];
      assert init[..n] == rs[..n];
      FirstFailurePersists(init, n);
    }
  }

  /** The outcomes of a prefix of the records are a prefix of their outcomes. */
  lemma OutcomesPrefix(records: seq<Record>, n: nat, custom: seq<string>, reversed: map<string, string>)
    requires RecordsValid(records) && n <= |records|
    ensures RecordsValid(records[..n])
    ensures Outcomes(records[..n], custom, reversed) == Outcomes(records, custom, reversed)[..n]
  {
    RecordsValidPrefix(records, n);
    assert forall i :: 0 <= i < n ==> records[..n][i] == records[i];
  }

  /** One more turn of the loop over records: the next record is renamed and appended, or raises. */
  lemma RemapAllStep(records: seq<Record>, i: nat, custom: seq<string>, reversed: map<string, string>)
    requires RecordsValid(records) && i < |records|
    ensures RecordsValid(records[..i]) && RecordsValid(records[..i + 1])
    ensures RemapAll(records[..i], custom, reversed).Success? ==>
              RemapAll(records[..i + 1], custom, reversed) ==
                if RemapRecord(records[i], custom, reversed).Failure?
                then Failure(RemapRecord(records[i], custom, reversed).error)
                else Success(RemapAll(records[..i], custom, reversed).value + [RemapRecord(records[i], custom, reversed).value])
  {
    var rs := Outcomes(records, custom, reversed);
    OutcomesPrefix(records, i, custom, reversed);
    OutcomesPrefix(records, i + 1, custom, reversed);
    assert rs[..i + 1][..i] == rs[..i];
  }

  /** A listing of a single record raises exactly what renaming that record raises. */
  lemma RemapAllSingle(rec: Record, custom: seq<string>, reversed: map<string, string>)
    requires rec.Valid()
    ensures RecordsValid([rec])
    ensures RemapRecord(rec, custom, reversed).Failure? ==>
              RemapAll([rec], custom, reversed) == Failure(RemapRecord(rec, custom, reversed).error)
    ensures RemapRecord(rec, custom, reversed).Success? ==>
              RemapAll([rec], custom, reversed) == Success([RemapRecord(rec, custom, reversed).value])
  {
    assert RecordsValid([rec]);
    var rs := Outcomes([rec], custom, reversed);
    var one := RemapRecord(rec, custom, reversed);
    assert rs[..|rs| - 1] == [] && rs[|rs| - 1] == one;
    assert FirstFailure(rs[..|rs| - 1]) == Success([]);
    assert RemapAll([rec], custom, reversed) == FirstFailure(rs);
    if one.Success? {
      assert FirstFailure(rs) == Success([] + [one.value]);
      assert [] + [one.value] == [one.value];
    }
  }

  /** The listing's result holds one renamed record per fetched record, in the same order, and raises exactly when some record cannot be renamed. */
  lemma RemapAllShape(records: seq<Record>, custom: seq<string>, reversed: map<string, string>)
    requires RecordsValid(records)
    ensures RemapAll(records, custom, reversed).Success? <==>
              forall i :: 0 <= i < |records| ==> RemapRecord(records[i], custom, reversed).Success?
    ensures RemapAll(records, custom, reversed).Success? ==>
              && |RemapAll(records, custom, reversed).value| == |records|
              && forall i :: 0 <= i < |records| ==>
                   RemapRecord(records[i], custom, reversed) == Success(RemapAll(records, custom, reversed).value[i])
  {
    FirstFailureShape(Outcomes(records, custom, reversed));
  }

  /** A record holding only a custom id that has no name raises `KeyError` on that id. */
  lemma RemapSingleUnnamed(id: string, v: Value, custom: seq<string>, reversed: map<string, string>)
    requires id in custom && id !in reversed
    ensures RemapRecord(Empty<Value>().Set(id, v), custom, reversed) == Failure(KeyError(id))
  {
    var rec := Empty<Value>().Set(id, v);
    assert rec.order == [id] && rec.order[..|rec.order| - 1] == [];
    assert RemapKeys(rec, [], custom, reversed) == Success(Empty());
    assert !CanRename(id, custom, reversed);
    assert RemapKeys(rec, rec.order, custom, reversed) == Failure(KeyError(id));
  }

  /** Once the loop over some first keys has raised, the loop over all keys raises the same error. */
  lemma {:induction false} RemapKeysFailurePersists(rec: Record, keys: seq<string>, n: nat, custom: seq<string>, reversed: map<string, string>)
    requires forall k :: k in keys ==> k in rec.entries
    requires n <= |keys|
    requires RemapKeys(rec, keys[..n], custom, reversed).Failure?
    ensures RemapKeys(rec, keys, custom, reversed) == RemapKeys(rec, keys[..n], custom, reversed)
    decreases |keys| - n
  {
    if n == |keys| {
      assert keys[..n] == keys;
    } else {
      var init := keys[..|keys| - 1];
      assert init[..n] == keys[..n];
      RemapKeysFailurePersists(rec, init, n, custom, reversed);
    }
  }

  /** One more turn of the remap loop: the next key is renamed onto the record built so far, or raises. */
  lemma RemapKeysStep(rec: Record, keys: seq<string>, j: nat, custom: seq<string>, reversed: map<string, string>)
    requires forall k :: k in keys ==> k in rec.entries
    requires j < |keys|
    ensures forall k :: k in keys[..j] ==> k in rec.entries
    ensures RemapKeys(rec, keys[..j], custom, reversed).Success? ==>
              RemapKeys(rec, keys[..j + 1], custom, reversed) ==
                if CanRename(keys[j], custom, reversed)
                then Success(RemapKeys(rec, keys[..j], custom, reversed).value.Set(NewName(keys[j], custom, reversed), rec.entries[keys[j]]))
                else Failure(KeyError(keys[j]))
  {
    assert keys[..j + 1][..j] == keys[..j];
  }

  /** Once the loop over some first records has raised, the loop over all records raises the same error. */
  lemma RemapAllFailurePersists(records: seq<Record>, n: nat, custom: seq<string>, reversed: map<string, string>)
    requires RecordsValid(records)
    requires n <= |records|
    requires RemapAll(records[..n], custom, reversed).Failure?
    ensures RemapAll(records, custom, reversed) == RemapAll(records[..n], custom, reversed)
  {
    OutcomesPrefix(records, n, custom, reversed);
    FirstFailurePersists(Outcomes(records, custom, reversed), n);
  }

  /**
   * Renaming one record: it fails exactly when a custom id has no name in the reversed mapping.
   * Otherwise a custom id is renamed to its name, every other key is kept, and each value stays
   * with its key unless a later key of the record is given the same name.
   */
  lemma RemapRecordSpec(rec: Record, custom: seq<string>, reversed: map<string, string>)
    requires rec.Valid()
    ensures RemapRecord(rec, custom, reversed).Success? <==>
              forall k :: k in rec.entries && k in custom ==> k in reversed
    ensures RemapRecord(rec, custom, reversed).Success? ==>
              var out := RemapRecord(rec, custom, reversed).value;
              && out.Valid()
              && (forall n :: n in out.entries <==> exists k :: k in rec.entries && NewName(k, custom, reversed) == n)
              && (forall i :: 0 <= i < |rec.order| &&
                    (forall j :: i < j < |rec.order| ==> NewName(rec.order[j], custom, reversed) != NewName(rec.order[i], custom, reversed))
                    ==> out.entries[NewName(rec.order[i], custom, reversed)] == rec.entries[rec.order[i]])
  {
    RemapKeysOutcome(rec, rec.order, custom, reversed);
    if RemapRecord(rec, custom, reversed).Success? {
      RemapKeysNames(rec, rec.order, custom, reversed);
      forall i | 0 <= i < |rec.order| &&
          (forall j :: i < j < |rec.order| ==> NewName(rec.order[j], custom, reversed) != NewName(rec.order[i], custom, reversed))
        ensures NewName(rec.order[i], custom, reversed) in RemapRecord(rec, custom, reversed).value.entries
        ensures RemapRecord(rec, custom, reversed).value.entries[NewName(rec.order[i], custom, reversed)] == rec.entries[rec.order[i]]
      {
        RemapKeysLastWins(rec, rec.order, custom, reversed, i);
      }
    }
  }

  /**
   * When the record's keys get pairwise different names, renaming loses nothing: every key that
   * is not a custom id keeps its value under its own name, and every custom id's value moves to its name.
   */
  lemma RemapWithoutCollisions(rec: Record, custom: seq<string>, reversed: map<string, string>)
    requires rec.Valid()
    requires forall k :: k in rec.entries && k in custom ==> k in reversed
    requires forall k1, k2 :: k1 in rec.entries && k2 in rec.entries && k1 != k2 ==>
               NewName(k1, custom, reversed) != NewName(k2, custom, reversed)
    ensures RemapRecord(rec, custom, reversed).Success?
    ensures forall k :: k in rec.entries && k !in custom ==>
              k in RemapRecord(rec, custom, reversed).value.entries
              && RemapRecord(rec, custom, reversed).value.entries[k] == rec.entries[k]
    ensures forall k :: k in rec.entries && k in custom ==>
              reversed[k] in RemapRecord(rec, custom, reversed).value.entries
              && RemapRecord(rec, custom, reversed).value.entries[reversed[k]] == rec.entries[k]
  {
    RemapRecordSpec(rec, custom, reversed);
    var out := RemapRecord(rec, custom, reversed).value;
    forall k | k in rec.entries
      ensures NewName(k, custom, reversed) in out.entries
      ensures out.entries[NewName(k, custom, reversed)] == rec.entries[k]
    {
      var i :| 0 <= i < |rec.order| && rec.order[i] == k;
      forall j | i < j < |rec.order|
        ensures NewName(rec.order[j], custom, reversed) != NewName(rec.order[i], custom, reversed)
      {
        assert rec.order[j] in rec.entries;
      }
    }
  }

  /**
   * Round trip: when every key of a record is a custom id that the mapping m has as a value,
   * renaming with m's inverse gives a record that m translates back to the original one,
   * key for key and value for value.
   */
  lemma RemapRoundTrip(m: Dict<string>, custom: seq<string>, rec: Record)
    requires m.Valid() && rec.Valid()
    requires forall k :: k in rec.entries ==> k in custom && k in m.entries.Values
    ensures RemapRecord(rec, custom, Schema.Invert(m)).Success?
    ensures var out := RemapRecord(rec, custom, Schema.Invert(m)).value;
            && (forall n :: n in out.entries ==>
                  n in m.entries && m.entries[n] in rec.entries && rec.entries[m.entries[n]] == out.entries[n])
            && (forall k :: k in rec.entries ==>
                  k in Schema.Invert(m) && Schema.Invert(m)[k] in out.entries
                  && Schema.Invert(m)[k] in m.entries && m.entries[Schema.Invert(m)[k]] == k)
  {
    var inv := Schema.Invert(m);
    Schema.InvertIsRightInverse(m);
    assert forall k :: k in rec.entries ==> k in inv;
    assert forall k :: k in rec.entries ==> inv[k] in m.entries && m.entries[inv[k]] == k;
    RoundTripHelper(m, inv, custom, rec);
  }

  lemma RoundTripHelper(m: Dict<string>, inv: map<string, string>, custom: seq<string>, rec: Record)
    requires rec.Valid()
    requires forall k :: k in rec.entries ==> k in custom && k in inv && inv[k] in m.entries && m.entries[inv[k]] == k
    ensures RemapRecord(rec, custom, inv).Success?
    ensures var out := RemapRecord(rec, custom, inv).value;
            && (forall n :: n in out.entries ==>
                  n in m.entries && m.entries[n] in rec.entries && rec.entries[m.entries[n]] == out.entries[n])
            && (forall k :: k in rec.entries ==> inv[k] in out.entries)
  {
    forall k1, k2 | k1 in rec.entries && k2 in rec.entries && k1 != k2
      ensures NewName(k1, custom, inv) != NewName(k2, custom, inv)
    {
      assert m.entries[inv[k1]] == k1 && m.entries[inv[k2]] == k2;
    }
    RemapWithoutCollisions(rec, custom, inv);
    RemapRecordSpec(rec, custom, inv);
    var out := RemapRecord(rec, custom, inv).value;
    forall n | n in out.entries
      ensures n in m.entries && m.entries[n] in rec.entries && rec.entries[m.entries[n]] == out.entries[n]
    {
      var k :| k in rec.entries && NewName(k, custom, inv) == n;
      assert inv[k] == n;
    }
  }

  /**
   * The renaming of `list` and the known-field loop of `create` and `update` undo each other: a record
   * keyed by mapped custom ids, renamed with the reversed mapping and translated back, is the record
   * it started as.
   */
  lemma RemapThenTranslate(m: Dict<string>, custom: seq<string>, rec: Record)
    requires m.Valid() && rec.Valid()
    requires forall k :: k in rec.entries ==> k in custom && k in m.entries.Values
    ensures RemapRecord(rec, custom, Schema.Invert(m)).Success?
    ensures Payloads.Translated(m, RemapRecord(rec, custom, Schema.Invert(m)).value).entries == rec.entries
  {
    RemapRoundTrip(m, custom, rec);
    var inv := Schema.Invert(m);
    TranslateBack(m, inv, rec, RemapRecord(rec, custom, inv).value);
  }

  /** Translating back a record whose names the mapping sends to the original record's keys and values. */
  lemma TranslateBack(m: Dict<string>, inv: map<string, string>, rec: Record, out: Record)
    requires m.Valid()
    requires forall n :: n in out.entries ==>
               n in m.entries && m.entries[n] in rec.entries && rec.entries[m.entries[n]] == out.entries[n]
    requires forall k :: k in rec.entries ==>
               k in inv && inv[k] in out.entries && inv[k] in m.entries && m.entries[inv[k]] == k
    ensures Payloads.Translated(m, out).entries == rec.entries
  {
    Payloads.TranslatedContents(m, out);
    SameEntries(m.entries, inv, rec.entries, out.entries, Payloads.Translated(m, out).entries);
  }

  /** A map whose keys and values are those the mapping sends back from `out` is the original record's map. */
  lemma SameEntries(m: map<string, string>, inv: map<string, string>, rec: map<string, Value>,
                    out: map<string, Value>, t: map<string, Value>)
    requires forall id :: id in t <==> exists a :: a in m && a in out && m[a] == id
    requires forall id :: id in t ==> exists a :: a in m && a in out && m[a] == id && t[id] == out[a]
    requires forall n :: n in out ==> n in m && m[n] in rec && rec[m[n]] == out[n]
    requires forall k :: k in rec ==> k in inv && inv[k] in out && inv[k] in m && m[inv[k]] == k
    ensures t == rec
  {
    forall id | id in rec ensures id in t {
      assert inv[id] in m && inv[id] in out && m[inv[id]] == id;
    }
    forall id | id in t ensures id in rec && t[id] == rec[id] {
      var a :| a in m && a in out && m[a] == id && t[id] == out[a];
    }
    assert t.Keys == rec.Keys;
  }

  // ---------------------------------------------------------------- bounded listing

  /**
   * The bounded listing as written: `all_customers` holds the whole response object, so the remap
   * loop iterates the object's keys and calls `.items()` on the first of them, a string.
   */
  function BoundedAsWritten(response: Record): Result<seq<Record>, Error> {
    if response.order == [] then Success([]) else Failure(AttributeError(response.order[0]))
  }

  /** Any response that carries a `value` list makes the bounded listing raise. */
  lemma BoundedAsWrittenFails(response: Record)
    requires response.Valid() && "value" in response.entries
    ensures BoundedAsWritten(response).Failure?
    ensures BoundedAsWritten(response).error.AttributeError?
  {
    assert "value" in response.order;
  }

  /** A listing of no users at all, `{"@odata.context": …, "value": []}`, already raises. */
  lemma BoundedAsWrittenRejectsEmptyListing()
    ensures var response := Empty<Value>().Set("@odata.context", Str("users")).Set("value", Array([]));
            BoundedAsWritten(response) == Failure(AttributeError("@odata.context"))
  {
  }

  /** The bounded listing as intended: the response's `value` list renamed like every paged listing. */
  function BoundedCorrected(response: Page, custom: seq<string>, reversed: map<string, string>): Result<seq<Record>, Error>
    requires RecordsValid(response.value)
  {
    RemapAll(response.value, custom, reversed)
  }

  /** The intended bounded listing returns one renamed record per user of the response, in order, or the first renaming error. */
  lemma BoundedCorrectedShape(response: Page, custom: seq<string>, reversed: map<string, string>)
    requires RecordsValid(response.value)
    ensures BoundedCorrected(response, custom, reversed).Success? <==>
              forall i :: 0 <= i < |response.value| ==> RemapRecord(response.value[i], custom, reversed).Success?
    ensures BoundedCorrected(response, custom, reversed).Success? ==>
              && |BoundedCorrected(response, custom, reversed).value| == |response.value|
              && forall i :: 0 <= i < |response.value| ==>
                   RemapRecord(response.value[i], custom, reversed) == Success(BoundedCorrected(response, custom, reversed).value[i])
    ensures response.value == [] ==> BoundedCorrected(response, custom, reversed) == Success([])
  {
    RemapAllShape(response.value, custom, reversed);
  }

  /** The response object of a listing request is the JSON form of the page: its users under `value`, and its next link. */
  predicate Decodes(response: Record, page: Page) {
    && "value" in response.entries
    && response.entries["value"] == Array(seq(|page.value|, i requires 0 <= i < |page.value| => Object(page.value[i])))
    && (page.nextLink.Some? <==> "@odata.nextLink" in response.entries)
    && (page.nextLink.Some? ==> response.entries["@odata.nextLink"] == Str(page.nextLink.value))
  }

  /**
   * The two bounded branches on one and the same response: as written it raises whatever users the
   * response holds, while the intended branch renames them and, for no users, returns none.
   */
  lemma BoundedAsWrittenVersusCorrected(response: Record, page: Page, custom: seq<string>, reversed: map<string, string>)
    requires response.Valid() && Decodes(response, page) && RecordsValid(page.value)
    ensures BoundedAsWritten(response).Failure? && BoundedAsWritten(response).error.AttributeError?
    ensures page.value == [] ==> BoundedCorrected(page, custom, reversed) == Success([])
    ensures BoundedCorrected(page, custom, reversed).Success? <==>
              forall i :: 0 <= i < |page.value| ==> RemapRecord(page.value[i], custom, reversed).Success?
  {
    BoundedAsWrittenFails(response);
    BoundedCorrectedShape(page, custom, reversed);
  }

  /** On the empty listing `{"@odata.context": "users", "value": []}`, as written raises and as intended returns no users. */
  lemma BoundedOnEmptyListing(custom: seq<string>, reversed: map<string, string>)
    ensures var response := Empty<Value>().Set("@odata.context", Str("users")).Set("value", Array([]));
            && Decodes(response, Page([], None))
            && BoundedAsWritten(response) == Failure(AttributeError("@odata.context"))
            && BoundedCorrected(Page([], None), custom, reversed) == Success([])
  {
    var response := Empty<Value>().Set("@odata.context", Str("users")).Set("value", Array([]));
    var empty: seq<Record> := [];
    assert seq(|empty|, i requires 0 <= i < |empty| => Object(empty[i])) == [];
    BoundedAsWrittenVersusCorrected(response, Page([], None), custom, reversed);
  }
}

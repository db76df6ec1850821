/**
 * The in-memory transaction table of the REST server: the `records` list
 * and the `next_record_id` counter, with the list, get, create, update and
 * delete operations stripped of HTTP. A record is its integer id plus the
 * other fields of its JSON object.
 */
module Store {
  import opened Wrappers

  /** A JSON value (floating-point numbers are not modelled). */
  datatype Value =
    | Null
    | Bool(b: bool)
    | Int(i: int)
    | Str(s: string)
    | Array(items: seq<Value>)
    | Object(members: map<string, Value>)

  const IdKey: string := "id"

  /** A stored record: the "id" member is kept apart from the others. */
  datatype Rec = Rec(id: int, fields: map<string, Value>)

  /** The request body after `json.loads`. */
  datatype Payload =
    | Object(members: map<string, Value>)  // a JSON object
    | Malformed                            // json.JSONDecodeError
    | Unusable                             // any other failure: missing length, a body that is not an object

  /** What a handler answers, with the HTTP status code of each kind of reply. */
  datatype Reply =
    | Listed(count: nat, data: seq<Rec>)  // 200
    | Found(rec: Rec)                     // 200
    | Created(rec: Rec)                   // 201
    | Updated(rec: Rec)                   // 200
    | Removed(id: int)                    // 200
    | BadId                               // 400, "ID must be an integer"
    | NotFound(id: int)                   // 404
    | MalformedJson                       // 400, "Malformed JSON body"
    | ServerError                         // 500

  /** The largest id of a nonempty list: Python's `max(r['id'] for r in records)`. */
  function MaxId(recs: seq<Rec>): (m: int)
    requires recs != []
    ensures forall r | r in recs :: r.id <= m
    ensures exists r | r in recs :: r.id == m
  {
    if |recs| == 1 then recs[0].id
    else
      var rest := MaxId(recs[1..]);
      assert forall r | r in recs :: r == recs[0] || r in recs[1..];
      if recs[0].id >= rest then recs[0].id else rest
  }

  /** `[r for r in records if r['id'] != rid]`. */
  function WithoutId(recs: seq<Rec>, rid: int): (r: seq<Rec>)
    ensures forall x :: x in r <==> x in recs && x.id != rid
    ensures |r| <= |recs|
  {
    if recs == [] then []
    else (if recs[0].id == rid then [] else [recs[0]]) + WithoutId(recs[1..], rid)
  }

  /** Filtering keeps the order: it distributes over concatenation. */
  lemma {:induction false} WithoutIdAppend(a: seq<Rec>, b: seq<Rec>, rid: int)
    ensures WithoutId(a + b, rid) == WithoutId(a, rid) + WithoutId(b, rid)
    decreases |a|
  {
    if a != [] {
      assert (a + b)[1..] == a[1..] + b;
      WithoutIdAppend(a[1..], b, rid);
    } else {
      assert a + b == b;
    }
  }

  /** With no record carrying the id, filtering changes nothing. */
  lemma {:induction false} WithoutAbsentId(recs: seq<Rec>, rid: int)
    requires forall r | r in recs :: r.id != rid
    ensures WithoutId(recs, rid) == recs
    decreases |recs|
  {
    if recs != [] {
      WithoutAbsentId(recs[1..], rid);
      assert recs == [recs[0]] + recs[1..];
    }
  }

  /**
   * The members of `fields` after `for k, v in updates.items(): if k != 'id':
   * match[k] = v`: every supplied key but "id" takes its new value, every
   * other key keeps its old one.
   */
  function Override(fields: map<string, Value>, updates: map<string, Value>): (r: map<string, Value>)
    ensures forall k :: k in r <==> k in fields || (k in updates && k != IdKey)
    ensures forall k | k in r :: r[k] == if k in updates && k != IdKey then updates[k] else fields[k]
  {
    fields + map k | k in updates && k != IdKey :: updates[k]
  }

  /** The loop `for k, v in updates.items(): if k != 'id': match[k] = v`. */
  method ApplyUpdates(fields: map<string, Value>, updates: map<string, Value>) returns (r: map<string, Value>)
    ensures r == Override(fields, updates)
  {
    r := fields;
    var pending := updates.Keys;
    while pending != {}
      invariant pending <= updates.Keys
      invariant r == Override(fields, updates - pending)
      decreases pending
    {
      var key :| key in pending;
      OverrideStep(fields, updates, pending, key);
      if key != IdKey {
        r := r[key := updates[key]];
      }
      pending := pending - {key};
    }
    assert updates - {} == updates;
  }

  /** Taking one more key of `updates` into account. */
  lemma OverrideStep(fields: map<string, Value>, updates: map<string, Value>, pending: set<string>, key: string)
    requires key in pending && pending <= updates.Keys
    ensures Override(fields, updates - (pending - {key})) ==
      if key != IdKey then Override(fields, updates - pending)[key := updates[key]]
      else Override(fields, updates - pending)
  {
    var before := Override(fields, updates - pending);
    var after := Override(fields, updates - (pending - {key}));
    var expected := if key != IdKey then before[key := updates[key]] else before;
    forall k
      ensures k in after <==> k in expected
      ensures k in after ==> after[k] == expected[k]
    {
      assert k in updates - (pending - {key}) <==> k in updates - pending || k == key;
    }
  }

  /** The index of the first record with id `rid`: Python's `next(...)` scan. */
  function FirstIndex(recs: seq<Rec>, rid: int): (r: Option<nat>)
    ensures r.Some? ==> r.value < |recs| && recs[r.value].id == rid
    ensures r.Some? ==> forall j | 0 <= j < r.value :: recs[j].id != rid
    ensures r.None? ==> forall j | 0 <= j < |recs| :: recs[j].id != rid
  {
    if recs == [] then None
    else if recs[0].id == rid then Some(0)
    else match FirstIndex(recs[1..], rid)
      case None => None
      case Some(k) => Some(k + 1)
  }

  class RecordStore {
    var records: seq<Rec>
    var nextId: int
    /** Every id handed out since the table was loaded, deleted ones included. */
    ghost var Issued: set<int>

    /**
     * The counter is above every id ever handed out, and the "id" member
     * lives in `Rec.id` only.
     */
    ghost predicate Valid()
      reads this
    {
      && (forall x | x in Issued :: x < nextId)
      && (forall r | r in records :: r.id in Issued && IdKey !in r.fields)
    }

    /** Module start-up: `records = []`, `next_record_id = 1`. */
    constructor ()
      ensures Valid() && records == [] && nextId == 1 && Issued == {}
    {
      records := [];
      nextId := 1;
      Issued := {};
    }

    /**
     * `load_records`: with a file, its records and a counter one past the
     * largest id (1 for an empty file); without one, an empty table and the
     * counter left as it was.
     */
    method Load(file: Option<seq<Rec>>)
      requires file.Some? ==> forall r | r in file.value :: IdKey !in r.fields
      modifies this
      ensures Valid()
      ensures file.None? ==> records == [] && nextId == old(nextId)
      ensures file.Some? ==> records == file.value
      ensures file.Some? ==> nextId == if file.value == [] then 1 else MaxId(file.value) + 1
    {
      match file {
        case Some(loaded) =>
          records := loaded;
          nextId := if loaded != [] then MaxId(loaded) + 1 else 1;
          Issued := set r | r in loaded :: r.id;
        case None =>
          records := [];
          Issued := {};
      }
    }

    /** `_list_records`: the count is the current number of records. */
    method List() returns (reply: Reply)
      ensures reply == Listed(|records|, records)
    {
      reply := Listed(|records|, records);
    }

    /** The generator scan `next((r for r in records if r['id'] == rid), None)`. */
    method Find(rid: int) returns (k: Option<nat>)
      ensures k == FirstIndex(records, rid)
      ensures k.Some? ==> k.value < |records| && records[k.value].id == rid
      ensures k.Some? ==> forall j | 0 <= j < k.value :: records[j].id != rid
      ensures k.None? ==> forall r | r in records :: r.id != rid
    {
      var i := 0;
      while i < |records|
        invariant 0 <= i <= |records|
        invariant forall j | 0 <= j < i :: records[j].id != rid
      {
        if records[i].id == rid {
          FirstIndexIs(records, rid, i);
          return Some(i);
        }
        i := i + 1;
      }
      FirstIndexIs(records, rid, |records|);
      return None;
    }

    /** `_get_record`: the first record with the id, or why there is none. */
    method Get(rid: Option<int>) returns (reply: Reply)
      ensures rid.None? ==> reply == BadId
      ensures rid.Some? && FirstIndex(records, rid.value).None? ==>
        reply == NotFound(rid.value) && forall r | r in records :: r.id != rid.value
      ensures rid.Some? && FirstIndex(records, rid.value).Some? ==>
        exists k | 0 <= k < |records| ::
          && reply == Found(records[k])
          && records[k].id == rid.value
          && forall j | 0 <= j < k :: records[j].id != rid.value
    {
      if rid.None? {
        return BadId;
      }
      var k := Find(rid.value);
      if k.None? {
        return NotFound(rid.value);
      }
      return Found(records[k.value]);
    }

    /**
     * `_create_record`: the record gets the old counter as its id, whatever
     * id the client sent, and is appended; the counter goes up by one. On a
     * bad body nothing changes.
     */
    method Create(payload: Payload) returns (reply: Reply)
      requires Valid()
      modifies this
      ensures Valid()
      ensures payload.Object? ==>
        var rec := Rec(old(nextId), payload.members - {IdKey});
        && records == old(records) + [rec]
        && nextId == old(nextId) + 1
        && reply == Created(rec)
        && old(nextId) !in old(Issued)
        && Issued == old(Issued) + {old(nextId)}
      ensures !payload.Object? ==>
        && records == old(records) && nextId == old(nextId) && Issued == old(Issued)
        && reply == (if payload.Malformed? then MalformedJson else ServerError)
    {
      match payload {
        case Malformed =>
          return MalformedJson;
        case Unusable =>
          return ServerError;
        case Object(body) =>
          var rec := Rec(nextId, body - {IdKey});
          Issued := Issued + {nextId};
          nextId := nextId + 1;
          records := records + [rec];
          return Created(rec);
      }
    }

    /**
     * `_update_record`: in the first record with the id, every supplied key
     * but "id" is overwritten; its id, its other keys and every other record
     * stay as they were.
     */
    method Update(rid: Option<int>, payload: Payload) returns (reply: Reply)
      requires Valid()
      modifies this
      ensures Valid() && nextId == old(nextId) && Issued == old(Issued)
      ensures rid.None? ==> reply == BadId && records == old(records)
      ensures rid.Some? && FirstIndex(old(records), rid.value).None? ==>
        reply == NotFound(rid.value) && records == old(records)
      ensures rid.Some? && FirstIndex(old(records), rid.value).Some? && !payload.Object? ==>
        && records == old(records)
        && reply == (if payload.Malformed? then MalformedJson else ServerError)
      ensures rid.Some? && FirstIndex(old(records), rid.value).Some? && payload.Object? ==>
        var k := FirstIndex(old(records), rid.value).value;
        var rec := Rec(rid.value, Override(old(records)[k].fields, payload.members));
        && records == old(records)[k := rec]
        && reply == Updated(rec)
    {
      if rid.None? {
        return BadId;
      }
      var found := Find(rid.value);
      if found.None? {
        return NotFound(rid.value);
      }
      var k := found.value;
      match payload {
        case Malformed =>
          return MalformedJson;
        case Unusable =>
          return ServerError;
        case Object(updates) =>
          var fields := ApplyUpdates(records[k].fields, updates);
          var rec := Rec(records[k].id, fields);
          records := records[k := rec];
          return Updated(rec);
      }
    }

    /**
     * `_delete_record`: every record with the id goes, the rest keep their
     * order; the counter is untouched, so the id is never handed out again.
     */
    method Delete(rid: Option<int>) returns (reply: Reply)
      requires Valid()
      modifies this
      ensures Valid() && nextId == old(nextId) && Issued == old(Issued)
      ensures rid.None? ==> reply == BadId && records == old(records)
      ensures rid.Some? && FirstIndex(old(records), rid.value).None? ==>
        reply == NotFound(rid.value) && records == old(records)
      ensures rid.Some? && FirstIndex(old(records), rid.value).Some? ==>
        reply == Removed(rid.value) && records == WithoutId(old(records), rid.value)
    {
      if rid.None? {
        return BadId;
      }
      var found := Find(rid.value);
      if found.None? {
        return NotFound(rid.value);
      }
      records := WithoutId(records, rid.value);
      return Removed(rid.value);
    }
  }

  /** The loop's answer is the first index: `FirstIndex` stops at the same place. */
  lemma {:induction false} FirstIndexIs(recs: seq<Rec>, rid: int, i: nat)
    requires i <= |recs| && forall j | 0 <= j < i :: recs[j].id != rid
    requires i < |recs| ==> recs[i].id == rid
    ensures FirstIndex(recs, rid) == if i < |recs| then Some(i) else None
    decreases i
  {
    if recs != [] && i > 0 {
      FirstIndexIs(recs[1..], rid, i - 1);
    }
  }
}

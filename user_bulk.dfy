/** `updateMultipleUsers`: the loop that sorts a batch of per-user updates
    into bulk operations, invalid ids and invalid fields, and the ordered bulk
    write that applies the operations. */
module UserBulk {
  import opened Common
  import opened Seqs
  import opened UserModel

  /** A JSON value given for a field, as far as the model tells them apart. */
  datatype Value = Text(s: string) | Flag(b: bool)

  /** The own keys of a JavaScript object are distinct. */
  predicate DistinctKeys(fields: seq<(string, Value)>)
  {
    forall i, j :: 0 <= i < j < |fields| ==> fields[i].0 != fields[j].0
  }

  /** The entries of an object, in the order `Object.keys` lists them. */
  type Fields = f: seq<(string, Value)> | DistinctKeys(f) witness []

  /** What an entry's `updateData` is: a value whose `typeof` is not
      "object", `null` (whose `typeof` is "object"), or an object. */
  datatype Payload = NotAnObject | Null | Object(fields: Fields)

  /** One element of the `users` array; `id` is `None` when it is falsy. */
  datatype Entry = Entry(id: Option<Id>, updateData: Payload)

  /** The fields a batch entry may set. */
  const AllowedFields: seq<string> := ["firstName", "lastName", "email", "isActive"]

  /** `Object.keys` of an object: the field names, one per field. */
  function Keys(fields: seq<(string, Value)>): (r: seq<string>)
    ensures |r| == |fields|
    ensures forall k :: k in r <==> exists v :: (k, v) in fields
  {
    if fields == [] then []
    else
      var rest := Keys(fields[1..]);
      assert forall f :: f in fields[1..] ==> f in fields;
      assert forall f :: f in fields ==> f == fields[0] || f in fields[1..];
      [fields[0].0] + rest
  }

  /** An `updateOne` with a `$set` of the entry's fields. */
  datatype Op = Op(id: Id, fields: Fields)

  /** An entry refused for its keys, with exactly the keys outside the allow-list. */
  datatype BadFields = BadFields(id: Id, invalidKeys: seq<string>)

  /** The three arrays the loop fills. */
  datatype Partition = Partition(ops: seq<Op>, invalidIds: seq<Option<Id>>, invalidFields: seq<BadFields>)

  /** The entry makes the loop body throw: a truthy id with a `null`
      `updateData` reaches `Object.keys(null)`. */
  predicate Throws(e: Entry)
  {
    e.id.Some? && e.updateData.Null?
  }

  /** Size of a partition: the entries it has placed. */
  function Placed(p: Partition): nat
  {
    |p.ops| + |p.invalidIds| + |p.invalidFields|
  }

  /** What one turn of the loop does with an entry; `None` when it throws.
      Otherwise the entry is appended to exactly one of the three arrays. */
  function Place(p: Partition, e: Entry): (r: Option<Partition>)
    ensures r.None? <==> Throws(e)
    ensures r.Some? ==>
      && p.ops <= r.value.ops && p.invalidIds <= r.value.invalidIds && p.invalidFields <= r.value.invalidFields
      && Placed(r.value) == Placed(p) + 1
    ensures e.id.None? ==> r == Some(p.(invalidIds := p.invalidIds + [None]))
  {
    if e.id.None? || e.updateData.NotAnObject? || (e.updateData.Object? && e.updateData.fields == []) then
      Some(p.(invalidIds := p.invalidIds + [e.id]))
    else if e.updateData.Null? then
      None
    else
      var invalidKeys := Without(Keys(e.updateData.fields), AllowedFields);
      if invalidKeys != [] then
        Some(p.(invalidFields := p.invalidFields + [BadFields(e.id.value, invalidKeys)]))
      else
        Some(p.(ops := p.ops + [Op(e.id.value, e.updateData.fields)]))
  }

  /** Where one turn of the loop puts an entry with a truthy id: a
      non-object or an empty object goes to the invalid ids; an object with
      a key outside the allow-list goes to the invalid fields, reported with
      exactly those keys; any other object becomes a bulk operation that sets
      its own fields. */
  lemma PlaceRule(p: Partition, e: Entry)
    requires e.id.Some?
    ensures (e.updateData.NotAnObject? || e.updateData == Object([])) ==>
      Place(p, e) == Some(p.(invalidIds := p.invalidIds + [e.id]))
    ensures e.updateData.Object? &&
            (exists k :: k in Keys(e.updateData.fields) && k !in AllowedFields) ==>
      && Place(p, e).Some? && Place(p, e).value.ops == p.ops && Place(p, e).value.invalidIds == p.invalidIds
      && |Place(p, e).value.invalidFields| == |p.invalidFields| + 1
      && var report := Place(p, e).value.invalidFields[|p.invalidFields|];
         && report.id == e.id.value
         && forall k :: k in report.invalidKeys <==> k in Keys(e.updateData.fields) && k !in AllowedFields
    ensures e.updateData.Object? && e.updateData.fields != [] &&
            (forall k :: k in Keys(e.updateData.fields) ==> k in AllowedFields) ==>
      Place(p, e) == Some(p.(ops := p.ops + [Op(e.id.value, e.updateData.fields)]))
  {
    if e.updateData.Object? {
      var invalidKeys := Without(Keys(e.updateData.fields), AllowedFields);
      assert invalidKeys != [] ==> invalidKeys[0] in invalidKeys;
    }
  }

  /** The three groups after the loop has run over `entries`; `None` when an
      entry throws. Without a throw, every entry lands in exactly one group. */
  function Split(entries: seq<Entry>): (r: Option<Partition>)
    ensures r.Some? ==> Placed(r.value) == |entries|
  {
    if entries == [] then Some(Partition([], [], []))
    else
      match Split(entries[..|entries| - 1])
      case None => None
      case Some(p) => Place(p, entries[|entries| - 1])
  }

  /** Puts two partitions one after the other, group by group. */
  function Join(a: Option<Partition>, b: Option<Partition>): Option<Partition>
  {
    if a.None? || b.None? then None
    else Some(Partition(a.value.ops + b.value.ops,
                        a.value.invalidIds + b.value.invalidIds,
                        a.value.invalidFields + b.value.invalidFields))
  }

  /** Placing an entry after a partition is joining it with the entry's own
      one-element partition. */
  lemma PlaceJoin(p: Partition, e: Entry)
    ensures Place(p, e) == Join(Some(p), Place(Partition([], [], []), e))
  {
    var empty := Partition([], [], []);
    if e.id.None? || e.updateData.NotAnObject? || (e.updateData.Object? && e.updateData.fields == []) {
      assert [] + [e.id] == [e.id];
      assert p.ops + [] == p.ops && p.invalidFields + [] == p.invalidFields;
    } else if !e.updateData.Null? {
      var invalidKeys := Without(Keys(e.updateData.fields), AllowedFields);
      assert p.ops + [] == p.ops && p.invalidIds + [] == p.invalidIds && p.invalidFields + [] == p.invalidFields;
      if invalidKeys != [] {
        var b := BadFields(e.id.value, invalidKeys);
        assert [] + [b] == [b];
      } else {
        var op := Op(e.id.value, e.updateData.fields);
        assert [] + [op] == [op];
      }
    }
  }

  /** Each entry is placed on its own and the groups keep the order of the
      batch: splitting a concatenation joins the splits of the parts. */
  lemma {:induction false} SplitConcat(a: seq<Entry>, b: seq<Entry>)
    ensures Split(a + b) == Join(Split(a), Split(b))
    decreases |b|
  {
    if b == [] {
      assert a + b == a;
      if Split(a).Some? {
        var p := Split(a).value;
        assert p.ops + [] == p.ops && p.invalidIds + [] == p.invalidIds && p.invalidFields + [] == p.invalidFields;
      }
    } else {
      var b' := b[..|b| - 1];
      var e := b[|b| - 1];
      assert (a + b)[..|a + b| - 1] == a + b';
      assert (a + b)[|a + b| - 1] == e;
      SplitConcat(a, b');
      if Split(a).Some? && Split(b').Some? {
        var p, q := Split(a).value, Split(b').value;
        PlaceJoin(q, e);
        PlaceJoin(Partition(p.ops + q.ops, p.invalidIds + q.invalidIds, p.invalidFields + q.invalidFields), e);
        var single := Place(Partition([], [], []), e);
        if single.Some? {
          var s := single.value;
          assert (p.ops + q.ops) + s.ops == p.ops + (q.ops + s.ops);
          assert (p.invalidIds + q.invalidIds) + s.invalidIds == p.invalidIds + (q.invalidIds + s.invalidIds);
          assert (p.invalidFields + q.invalidFields) + s.invalidFields
              == p.invalidFields + (q.invalidFields + s.invalidFields);
        }
      }
    }
  }

  /** The loop reaches the end without throwing exactly when no entry throws. */
  lemma {:induction false} SplitThrows(entries: seq<Entry>)
    ensures Split(entries).None? <==> exists i :: 0 <= i < |entries| && Throws(entries[i])
  {
    if entries != [] {
      var init := entries[..|entries| - 1];
      SplitThrows(init);
      assert forall i :: 0 <= i < |init| ==> init[i] == entries[i];
      if Split(init).None? {
        var i :| 0 <= i < |init| && Throws(init[i]);
        assert Throws(entries[i]);
      } else if Split(entries).None? {
        assert Throws(entries[|entries| - 1]);
      } else {
        assert !Throws(entries[|entries| - 1]);
        forall i | 0 <= i < |entries|
          ensures !Throws(entries[i])
        {
          if i < |init| {
            assert entries[i] == init[i];
          }
        }
      }
    }
  }

  /** Every bulk operation has a non-empty update made of allowed fields only;
      every invalid-fields report names at least one key, all of them outside
      the allow-list. */
  lemma {:induction false} SplitGroupsSound(entries: seq<Entry>)
    requires Split(entries).Some?
    ensures var p := Split(entries).value;
      && (forall k :: 0 <= k < |p.ops| ==>
            p.ops[k].fields != [] && forall key :: key in Keys(p.ops[k].fields) ==> key in AllowedFields)
      && (forall k :: 0 <= k < |p.invalidFields| ==>
            p.invalidFields[k].invalidKeys != []
            && forall key :: key in p.invalidFields[k].invalidKeys ==> key !in AllowedFields)
  {
    if entries != [] {
      SplitGroupsSound(entries[..|entries| - 1]);
      var e := entries[|entries| - 1];
      if e.updateData.Object? && e.updateData.fields != [] && e.id.Some? {
        var invalidKeys := Without(Keys(e.updateData.fields), AllowedFields);
        assert invalidKeys != [] ==> invalidKeys[0] in invalidKeys;
      }
    }
  }

  /** A shorter run of the loop that threw means the whole run throws. */
  lemma {:induction false} ThrownPrefix(entries: seq<Entry>, k: nat)
    requires k <= |entries|
    requires Split(entries[..k]).None?
    ensures Split(entries).None?
    decreases |entries| - k
  {
    if k == |entries| {
      assert entries[..k] == entries;
    } else {
      var init := entries[..|entries| - 1];
      assert init[..k] == entries[..k];
      ThrownPrefix(init, k);
    }
  }

  /** The loop of `updateMultipleUsers` over the batch (lines with `continue`
      become the branches of one `if`). `thrown` tells that an entry made the
      body throw; the three arrays are then meaningless. */
  method SplitBatch(entries: seq<Entry>) returns (thrown: bool, p: Partition)
    ensures thrown <==> exists i :: 0 <= i < |entries| && Throws(entries[i])
    ensures !thrown ==> Split(entries) == Some(p)
  {
    var bulkOperations: seq<Op> := [];
    var invalidIds: seq<Option<Id>> := [];
    var invalidFields: seq<BadFields> := [];
    var i := 0;
    while i < |entries|
      invariant 0 <= i <= |entries|
      invariant Split(entries[..i]) == Some(Partition(bulkOperations, invalidIds, invalidFields))
    {
      var e := entries[i];
      assert entries[..i + 1][..i] == entries[..i];
      assert entries[..i + 1][i] == e;
      if e.id.None? || e.updateData.NotAnObject? || (e.updateData.Object? && e.updateData.fields == []) {
        invalidIds := invalidIds + [e.id];
      } else if e.updateData.Null? {
        ThrownPrefix(entries, i + 1);
        SplitThrows(entries);
        return true, Partition([], [], []);
      } else {
        var invalidKeys := Without(Keys(e.updateData.fields), AllowedFields);
        if invalidKeys != [] {
          invalidFields := invalidFields + [BadFields(e.id.value, invalidKeys)];
        } else {
          bulkOperations := bulkOperations + [Op(e.id.value, e.updateData.fields)];
        }
      }
      i := i + 1;
    }
    assert entries[..|entries|] == entries;
    SplitThrows(entries);
    return false, Partition(bulkOperations, invalidIds, invalidFields);
  }

  /** The value stored into a string path: a boolean becomes its text,
      which reads back as the same boolean. */
  function CastText(v: Value): (r: string)
    ensures v.Text? ==> r == v.s
    ensures v.Flag? ==> CastFlag(Text(r)) == Some(v.b)
  {
    match v
    case Text(s) => s
    case Flag(b) => if b then "true" else "false"
  }

  /** The value stored into a boolean path; `None` when the value does not
      cast, which fails the whole bulk write. */
  function CastFlag(v: Value): (r: Option<bool>)
    ensures r == Some(true) <==> v == Flag(true) || v == Text("true") || v == Text("1") || v == Text("yes")
    ensures r == Some(false) <==> v == Flag(false) || v == Text("false") || v == Text("0") || v == Text("no")
  {
    match v
    case Flag(b) => Some(b)
    case Text(s) =>
      if s == "true" || s == "1" || s == "yes" then Some(true)
      else if s == "false" || s == "0" || s == "no" then Some(false)
      else None
  }

  /** Every value of the update casts to its path's type. */
  predicate CastsOk(fields: seq<(string, Value)>)
  {
    forall i :: 0 <= i < |fields| && fields[i].0 == "isActive" ==> CastFlag(fields[i].1).Some?
  }

  /** `$set` of one allowed field. Bulk operations carry allowed fields only
      (`SplitGroupsSound`), so no other key reaches this function. */
  function SetField(u: User, key: string, v: Value): User
  {
    if key == "firstName" then u.(firstName := CastText(v))
    else if key == "lastName" then u.(lastName := CastText(v))
    else if key == "email" then u.(email := CastText(v))
    else if key == "isActive" && CastFlag(v).Some? then u.(isActive := CastFlag(v).value)
    else u
  }

  /** `$set` of an update: its fields in order. Only the four allowed fields
      can change. */
  function Assign(u: User, fields: seq<(string, Value)>): (r: User)
    ensures r.password == u.password && r.roleId == u.roleId && r.isDeleted == u.isDeleted
    decreases |fields|
  {
    if fields == [] then u else Assign(SetField(u, fields[0].0, fields[0].1), fields[1..])
  }

  /** The value a user holds at a path, in the form a batch gives it. */
  function Get(u: User, key: string): Value
  {
    if key == "firstName" then Text(u.firstName)
    else if key == "lastName" then Text(u.lastName)
    else if key == "email" then Text(u.email)
    else if key == "isActive" then Flag(u.isActive)
    else Text("")
  }

  /** `$set` of one field writes that path only, and writing it again onto a
      user that already holds the written value changes nothing. */
  lemma SetFieldAt(u: User, w: User, key: string, v: Value)
    ensures forall j :: j != key ==> Get(SetField(u, key, v), j) == Get(u, j)
    ensures Get(w, key) == Get(SetField(u, key, v), key) ==> SetField(w, key, v) == w
  {
  }

  /** `$set` of an update leaves every path that none of its keys names as
      it was. */
  lemma {:induction false} AssignKeeps(u: User, fields: seq<(string, Value)>, key: string)
    requires forall i :: 0 <= i < |fields| ==> fields[i].0 != key
    ensures Get(Assign(u, fields), key) == Get(u, key)
    decreases |fields|
  {
    if fields != [] {
      SetFieldAt(u, u, fields[0].0, fields[0].1);
      assert forall i :: 0 <= i < |fields[1..]| ==> fields[1..][i] == fields[i + 1];
      AssignKeeps(SetField(u, fields[0].0, fields[0].1), fields[1..], key);
    }
  }

  /** `$set` of an update with distinct keys leaves every listed path holding
      its value: writing any of its fields again changes nothing. */
  lemma {:induction false} AssignSets(u: User, fields: seq<(string, Value)>)
    requires DistinctKeys(fields)
    ensures forall i :: 0 <= i < |fields| ==> SetField(Assign(u, fields), fields[i].0, fields[i].1) == Assign(u, fields)
    decreases |fields|
  {
    if fields != [] {
      var k, v := fields[0].0, fields[0].1;
      var rest := fields[1..];
      var u' := SetField(u, k, v);
      var r := Assign(u', rest);
      assert forall i :: 0 <= i < |rest| ==> rest[i] == fields[i + 1];
      assert DistinctKeys(rest);
      AssignSets(u', rest);
      AssignKeeps(u', rest, k);
      SetFieldAt(u, r, k, v);
      forall i | 0 <= i < |fields|
        ensures SetField(r, fields[i].0, fields[i].1) == r
      {
        if i > 0 {
          assert fields[i] == rest[i - 1];
        }
      }
    }
  }

  /** What a bulk write leaves behind: the table, the number of documents it
      modified, and whether it succeeded. */
  datatype BulkResult = BulkResult(users: UserTable, modified: nat, ok: bool)

  /** An ordered `bulkWrite`: every operation is cast first, and one that
      does not cast fails the write before anything is written; then the
      operations run in order, an operation on an absent id matches nothing,
      and the first one that would give a user an email another user holds
      breaks the unique index and stops the write, keeping what ran before. */
  function BulkWrite(users: UserTable, ops: seq<Op>): (r: BulkResult)
    ensures r.users.Keys == users.Keys && r.modified <= |ops|
    ensures (exists k :: 0 <= k < |ops| && !CastsOk(ops[k].fields)) ==> !r.ok && r.users == users
    ensures (forall k :: 0 <= k < |ops| ==> CastsOk(ops[k].fields)) ==> r == RunOps(users, ops)
  {
    if exists k :: 0 <= k < |ops| && !CastsOk(ops[k].fields) then BulkResult(users, 0, false)
    else RunOps(users, ops)
  }

  /** The operations of an ordered bulk write, run one after the other. */
  function RunOps(users: UserTable, ops: seq<Op>): (r: BulkResult)
    ensures r.users.Keys == users.Keys && r.modified <= |ops|
    ensures (forall k :: 0 <= k < |ops| ==> ops[k].id !in users) ==> r == BulkResult(users, 0, true)
  {
    if ops == [] then BulkResult(users, 0, true)
    else
      var op := ops[0];
      if op.id !in users then RunOps(users, ops[1..])
      else
        var updated := Assign(users[op.id], op.fields);
        if EmailTaken(users, updated.email, Some(op.id)) then BulkResult(users, 0, false)
        else
          var rest := RunOps(users[op.id := updated], ops[1..]);
          rest.(modified := rest.modified + if updated == users[op.id] then 0 else 1)
  }

  /** No operation targets `id`. */
  predicate Untouched(ops: seq<Op>, id: Id)
  {
    forall k :: 0 <= k < |ops| ==> ops[k].id != id
  }

  /** A bulk write, finished or stopped, keeps emails unique, keeps the set of
      users, changes no password, role or deletion flag, and leaves every
      user no operation names as it was. */
  lemma {:induction false} RunOpsFrame(users: UserTable, ops: seq<Op>)
    requires UniqueEmails(users)
    ensures var r := RunOps(users, ops).users;
      && UniqueEmails(r)
      && r.Keys == users.Keys
      && (forall id :: id in users ==>
            r[id].password == users[id].password && r[id].roleId == users[id].roleId
            && r[id].isDeleted == users[id].isDeleted)
      && (forall id :: id in users && Untouched(ops, id) ==> r[id] == users[id])
  {
    if ops != [] {
      var op := ops[0];
      assert forall id :: Untouched(ops, id) ==> Untouched(ops[1..], id) && op.id != id;
      if op.id !in users {
        RunOpsFrame(users, ops[1..]);
      } else {
        var updated := Assign(users[op.id], op.fields);
        if !EmailTaken(users, updated.email, Some(op.id)) {
          WriteKeepsUniqueEmails(users, op.id, updated);
          RunOpsFrame(users[op.id := updated], ops[1..]);
        }
      }
    }
  }

  /** The same holds of the whole bulk write, cast check included. */
  lemma BulkWriteFrame(users: UserTable, ops: seq<Op>)
    requires UniqueEmails(users)
    ensures var r := BulkWrite(users, ops).users;
      && UniqueEmails(r)
      && r.Keys == users.Keys
      && (forall id :: id in users ==>
            r[id].password == users[id].password && r[id].roleId == users[id].roleId
            && r[id].isDeleted == users[id].isDeleted)
      && (forall id :: id in users && Untouched(ops, id) ==> r[id] == users[id])
  {
    RunOpsFrame(users, ops);
  }

  /** An ordered bulk write runs its operations one after another: when the
      first part finishes, the second part runs on what it left and the
      counts add up; when the first part stops, nothing after it runs and
      what it wrote stays. */
  lemma {:induction false} RunOpsConcat(users: UserTable, a: seq<Op>, b: seq<Op>)
    ensures var ra := RunOps(users, a);
      if ra.ok then
        var rb := RunOps(ra.users, b);
        RunOps(users, a + b) == rb.(modified := ra.modified + rb.modified)
      else RunOps(users, a + b) == ra
    decreases |a|
  {
    if a == [] {
      assert a + b == b;
    } else {
      assert (a + b)[0] == a[0] && (a + b)[1..] == a[1..] + b;
      var op := a[0];
      if op.id !in users {
        RunOpsConcat(users, a[1..], b);
      } else {
        var updated := Assign(users[op.id], op.fields);
        if !EmailTaken(users, updated.email, Some(op.id)) {
          RunOpsConcat(users[op.id := updated], a[1..], b);
        }
      }
    }
  }

  /** A bulk write that succeeds leaves each user holding the values of the
      last operation that targets it: writing any field of that operation
      again changes nothing. */
  lemma {:induction false} RunOpsWrites(users: UserTable, ops: seq<Op>, k: nat)
    requires UniqueEmails(users) && RunOps(users, ops).ok
    requires k < |ops| && ops[k].id in users
    requires forall j :: k < j < |ops| ==> ops[j].id != ops[k].id
    ensures var r := RunOps(users, ops).users[ops[k].id];
      forall i :: 0 <= i < |ops[k].fields| ==> SetField(r, ops[k].fields[i].0, ops[k].fields[i].1) == r
    decreases k
  {
    var op := ops[0];
    var rest := ops[1..];
    if op.id !in users {
      RunOpsWrites(users, rest, k - 1);
    } else {
      var updated := Assign(users[op.id], op.fields);
      assert !EmailTaken(users, updated.email, Some(op.id));
      WriteKeepsUniqueEmails(users, op.id, updated);
      var after := users[op.id := updated];
      if k == 0 {
        RunOpsFrame(after, rest);
        assert Untouched(rest, op.id) by {
          forall j | 0 <= j < |rest| ensures rest[j].id != op.id {
            assert rest[j] == ops[j + 1];
          }
        }
        AssignSets(users[op.id], op.fields);
      } else {
        RunOpsWrites(after, rest, k - 1);
      }
    }
  }

  /** One operation of a bulk write: on an absent id it matches nothing and
      succeeds; on a present id it fails exactly when its `$set` would give
      the user an email another user holds, and it counts one modification
      exactly when it succeeds and changes the record. */
  lemma RunOpsOne(users: UserTable, op: Op)
    ensures var r := RunOps(users, [op]);
      && (op.id !in users ==> r == BulkResult(users, 0, true))
      && (op.id in users ==>
            var updated := Assign(users[op.id], op.fields);
            && (r.ok <==> !EmailTaken(users, updated.email, Some(op.id)))
            && (r.ok ==> r.users == users[op.id := updated])
            && r.modified == (if r.ok && updated != users[op.id] then 1 else 0))
  {
    assert [op][1..] == [];
  }

  /** A bulk write stops at the first operation that would duplicate an
      email: it fails, writes nothing more, and the operations after it do
      not run. */
  lemma RunOpsStopsAtDuplicate(users: UserTable, op: Op, rest: seq<Op>)
    requires op.id in users && EmailTaken(users, Assign(users[op.id], op.fields).email, Some(op.id))
    ensures RunOps(users, [op] + rest) == BulkResult(users, 0, false)
  {
    assert ([op] + rest)[0] == op;
  }

  /** A bulk write none of whose operations sets `email` cannot break the
      unique index, so it succeeds. */
  lemma {:induction false} RunOpsOkWithoutEmail(users: UserTable, ops: seq<Op>)
    requires UniqueEmails(users)
    requires forall k, i :: 0 <= k < |ops| && 0 <= i < |ops[k].fields| ==> ops[k].fields[i].0 != "email"
    ensures RunOps(users, ops).ok
    decreases |ops|
  {
    if ops != [] {
      var op := ops[0];
      assert forall k :: 0 <= k < |ops[1..]| ==> ops[1..][k] == ops[k + 1];
      if op.id !in users {
        RunOpsOkWithoutEmail(users, ops[1..]);
      } else {
        var updated := Assign(users[op.id], op.fields);
        AssignKeeps(users[op.id], op.fields, "email");
        assert updated.email == users[op.id].email;
        assert !EmailTaken(users, updated.email, Some(op.id));
        WriteKeepsUniqueEmails(users, op.id, updated);
        RunOpsOkWithoutEmail(users[op.id := updated], ops[1..]);
      }
    }
  }
}

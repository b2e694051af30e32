/**
 * The task store of the task CLI (backend/task-cli/models.py): the
 * `TodoStatus` enumeration, the `JsonTodo` record, the record conversions
 * done by `load` and `save`, and `JsonManager`, which keeps the records in
 * an insertion-ordered dictionary keyed by id and rewrites the whole file
 * after every change.
 *
 * Python's dict remembers insertion order; the model keeps that order in a
 * sequence of keys beside the map.  Timestamps come from the clock in the
 * source; here they are opaque values and `now` is a parameter.
 */
module TaskModels {
  import opened Optional

  // ---------------------------------------------------------------------
  // Status
  // ---------------------------------------------------------------------

  /** `TodoStatus`, a string-valued enumeration. */
  datatype TodoStatus = Todo | InProgress | Done

  /** `status.value`: the string stored in the JSON file. */
  function Value(s: TodoStatus): (v: string)
    ensures (v == "todo") == (s == Todo)
    ensures (v == "in-progress") == (s == InProgress)
    ensures (v == "done") == (s == Done)
  {
    match s
    case Todo => "todo"
    case InProgress => "in-progress"
    case Done => "done"
  }

  /** `TodoStatus(v)`: the member whose value is `v`; Python raises
      `ValueError` for any other string, modelled as `None`. */
  function ParseStatus(v: string): (r: Option<TodoStatus>)
    ensures r.Some? ==> Value(r.value) == v
    ensures r.None? ==> forall s :: Value(s) != v
  {
    if v == "todo" then Some(Todo)
    else if v == "in-progress" then Some(InProgress)
    else if v == "done" then Some(Done)
    else None
  }

  /** Every status survives the trip through its string value, and no two
      statuses share a value. */
  lemma StatusRoundTrip(s: TodoStatus, t: TodoStatus)
    ensures ParseStatus(Value(s)) == Some(s)
    ensures Value(s) == Value(t) ==> s == t
  {
  }

  // ---------------------------------------------------------------------
  // Records and their stored form
  // ---------------------------------------------------------------------

  /** A point in time as `datetime.now()` reports it; never inspected. */
  datatype Timestamp = Timestamp(ticks: int)

  /** `JsonTodo`: one task as held in memory. */
  datatype JsonTodo = JsonTodo(
    id: int,
    description: string,
    status: TodoStatus,
    createdAt: Timestamp,
    updatedAt: Timestamp)

  /** One task as written to the JSON file: the status is its string value. */
  datatype RawTodo = RawTodo(
    id: int,
    description: string,
    status: string,
    createdAt: Timestamp,
    updatedAt: Timestamp)

  /** The per-record conversion in `save`. */
  function Encode(t: JsonTodo): (r: RawTodo)
    ensures r.id == t.id && r.description == t.description
    ensures r.createdAt == t.createdAt && r.updatedAt == t.updatedAt
    ensures ParseStatus(r.status) == Some(t.status)
  {
    RawTodo(t.id, t.description, Value(t.status), t.createdAt, t.updatedAt)
  }

  /** The per-record conversion in `load`: the id is taken from the key, not
      from the stored "id" field, and an unknown status string fails. */
  function Decode(key: int, raw: RawTodo): (r: Option<JsonTodo>)
    ensures r.Some? <==> ParseStatus(raw.status).Some?
    ensures r.Some? ==> r.value.id == key && Encode(r.value) == raw.(id := key)
  {
    match ParseStatus(raw.status)
    case None => None
    case Some(s) => Some(JsonTodo(key, raw.description, s, raw.createdAt, raw.updatedAt))
  }

  /** Saving a record and loading it back under its own id gives it back. */
  lemma DecodeEncode(t: JsonTodo)
    ensures Decode(t.id, Encode(t)) == Some(t)
  {
    StatusRoundTrip(t.status, t.status);
  }

  // ---------------------------------------------------------------------
  // The dictionary of records
  // ---------------------------------------------------------------------

  ghost predicate Distinct(keys: seq<int>)
  {
    forall i, j :: 0 <= i < j < |keys| ==> keys[i] != keys[j]
  }

  /** The dictionary `data["todos"]`: every key maps to a record carrying that
      key as its id, and `order` lists each key once, in insertion order. */
  ghost predicate WellFormed(todos: map<int, JsonTodo>, order: seq<int>)
  {
    && (forall k :: k in todos ==> todos[k].id == k)
    && (forall i :: 0 <= i < |order| ==> order[i] in todos)
    && (forall k :: k in todos ==> k in order)
    && Distinct(order)
  }

  /** `todos[t.id] = t` keeps the dictionary well formed: a new key goes
      last, an existing key keeps its place. */
  lemma AssignKeepsWellFormed(todos: map<int, JsonTodo>, order: seq<int>, t: JsonTodo)
    requires WellFormed(todos, order)
    ensures WellFormed(todos[t.id := t], if t.id in todos then order else order + [t.id])
  {
    var order' := if t.id in todos then order else order + [t.id];
    assert forall i :: 0 <= i < |order| ==> order'[i] == order[i];
  }

  /** `del todos[id]` keeps the dictionary well formed. */
  lemma RemoveKeepsWellFormed(todos: map<int, JsonTodo>, order: seq<int>, id: int)
    requires WellFormed(todos, order)
    ensures WellFormed(todos - {id}, Without(order, id))
  {
    var order' := Without(order, id);
    forall i | 0 <= i < |order'|
      ensures order'[i] in todos - {id}
    {
      assert order'[i] in order';
    }
  }

  /** `list(todos.values())`: the records in insertion order. */
  function Values(todos: map<int, JsonTodo>, order: seq<int>): (all: seq<JsonTodo>)
    requires forall i :: 0 <= i < |order| ==> order[i] in todos
    ensures |all| == |order|
    ensures forall i :: 0 <= i < |order| ==> all[i] == todos[order[i]]
    ensures forall t :: t in all ==> t in todos.Values
  {
    seq(|order|, i requires 0 <= i < |order| && order[i] in todos => todos[order[i]])
  }

  /** A well-formed dictionary has exactly as many entries as its order has
      keys. */
  lemma SizeMatchesOrder(todos: map<int, JsonTodo>, order: seq<int>)
    requires WellFormed(todos, order)
    ensures |todos| == |order|
  {
    forall k
      ensures k in todos.Keys <==> k in set k | k in order
    {
    }
    assert todos.Keys == set k | k in order;
    DistinctKeysCount(order);
  }

  /** A sequence without repetitions has as many distinct elements as it
      has positions. */
  lemma {:induction false} DistinctKeysCount(keys: seq<int>)
    requires Distinct(keys)
    ensures |set k | k in keys| == |keys|
  {
    if keys != [] {
      var n := |keys| - 1;
      var prefix := keys[..n];
      assert Distinct(prefix);
      DistinctKeysCount(prefix);
      assert keys == prefix + [keys[n]];
      assert keys[n] !in prefix;
      assert (set k | k in keys) == (set k | k in prefix) + {keys[n]};
    }
  }

  /** Every stored record appears in `Values`, and nothing else does. */
  lemma ValuesAreStored(todos: map<int, JsonTodo>, order: seq<int>)
    requires WellFormed(todos, order)
    ensures forall k :: k in todos ==> todos[k] in Values(todos, order)
    ensures forall t :: t in Values(todos, order) ==> t.id in todos && todos[t.id] == t
  {
    var all := Values(todos, order);
    forall k | k in todos
      ensures todos[k] in all
    {
      var i :| 0 <= i < |order| && order[i] == k;
      assert all[i] == todos[k];
    }
  }

  /** `keys` with `x` taken out, the others kept in their order: the key
      order of a Python dict after `del d[x]`. */
  function Without(keys: seq<int>, x: int): (r: seq<int>)
    ensures forall y :: y in r <==> y in keys && y != x
    ensures Distinct(keys) ==> Distinct(r)
    ensures x !in keys ==> r == keys
  {
    if keys == [] then []
    else
      var rest := Without(keys[1..], x);
      assert keys == [keys[0]] + keys[1..];
      assert Distinct(keys) ==> Distinct(keys[1..]) && keys[0] !in keys[1..];
      if keys[0] == x then rest else [keys[0]] + rest
  }

  /** Taking a key out of a list without repeats closes the gap it leaves:
      the keys before it and the keys after it keep their order. */
  lemma WithoutKeepsOrder(keys: seq<int>, i: int)
    requires Distinct(keys) && 0 <= i < |keys|
    ensures Without(keys, keys[i]) == keys[..i] + keys[i + 1..]
  {
    SplitAt(keys, i);
    WithoutSkipsPrefix(keys[..i], [keys[i]] + keys[i + 1..], keys[i]);
    assert ([keys[i]] + keys[i + 1..])[1..] == keys[i + 1..];
  }

  /** A key of a list without repeats occurs neither before nor after its
      own position. */
  lemma SplitAt(keys: seq<int>, i: int)
    requires Distinct(keys) && 0 <= i < |keys|
    ensures keys == keys[..i] + ([keys[i]] + keys[i + 1..])
    ensures keys[i] !in keys[..i] && keys[i] !in keys[i + 1..]
  {
    assert forall j :: 0 <= j < i ==> keys[..i][j] == keys[j];
    assert forall j :: i < j < |keys| ==> keys[i + 1..][j - i - 1] == keys[j];
  }

  /** Keys before the first occurrence of `x` are kept in front. */
  lemma {:induction false} WithoutSkipsPrefix(before: seq<int>, rest: seq<int>, x: int)
    requires x !in before
    ensures Without(before + rest, x) == before + Without(rest, x)
    decreases |before|
  {
    if before == [] {
      assert before + rest == rest;
    } else {
      var tail := Without(before[1..] + rest, x);
      assert Without(before + rest, x) == [before[0]] + tail by {
        WithoutKeepsHead(before + rest, before[1..] + rest, x);
      }
      assert tail == before[1..] + Without(rest, x) by {
        WithoutSkipsPrefix(before[1..], rest, x);
      }
      ConsAppend(before, Without(rest, x));
    }
  }

  /** A first key other than `x` stays first. */
  lemma WithoutKeepsHead(s: seq<int>, tail: seq<int>, x: int)
    requires s != [] && s[0] != x && s[1..] == tail
    ensures Without(s, x) == [s[0]] + Without(tail, x)
  {
  }

  lemma ConsAppend(a: seq<int>, b: seq<int>)
    requires a != []
    ensures [a[0]] + (a[1..] + b) == a + b
  {
    assert a == [a[0]] + a[1..];
  }

  /** `max(keys, default=default)`. */
  function MaxOrDefault(keys: seq<int>, default: int): (m: int)
    ensures keys == [] ==> m == default
    ensures keys != [] ==> m in keys && forall k :: k in keys ==> k <= m
  {
    if keys == [] then default
    else if |keys| == 1 then keys[0]
    else
      var rest := MaxOrDefault(keys[1..], default);
      assert keys == [keys[0]] + keys[1..];
      if keys[0] < rest then rest else keys[0]
  }

  /** `a` can be obtained from `b` by deleting elements. */
  ghost predicate IsSubsequence(a: seq<JsonTodo>, b: seq<JsonTodo>)
    decreases |b|
  {
    a == [] ||
    (b != [] && ((a[0] == b[0] && IsSubsequence(a[1..], b[1..])) || IsSubsequence(a, b[1..])))
  }

  /** The comprehension of `get_all_by_status`: the records with the given
      status, in their original order. */
  function WithStatus(todos: seq<JsonTodo>, status: TodoStatus): (r: seq<JsonTodo>)
    ensures forall t :: t in r <==> t in todos && t.status == status
    ensures IsSubsequence(r, todos)
  {
    if todos == [] then []
    else if todos[0].status == status then [todos[0]] + WithStatus(todos[1..], status)
    else WithStatus(todos[1..], status)
  }

  /** Every record is listed under exactly one status. */
  lemma {:induction false} StatusesPartition(todos: seq<JsonTodo>)
    ensures |WithStatus(todos, Todo)| + |WithStatus(todos, InProgress)|
            + |WithStatus(todos, Done)| == |todos|
  {
    if todos != [] {
      StatusesPartition(todos[1..]);
    }
  }

  // ---------------------------------------------------------------------
  // The JSON file
  // ---------------------------------------------------------------------

  /** What `load` finds at the path: no file, a file that is not JSON, or the
      entries of its "todos" object (empty when that key is absent), with
      each key already converted by `int`. */
  datatype StoredFile = Missing | Unparsable | Parsed(entries: seq<(int, RawTodo)>)

  /** The result of `load`: the dictionary, or the `ValueError` raised by an
      unknown status string. */
  datatype LoadOutcome =
    | Loaded(todos: map<int, JsonTodo>, order: seq<int>)
    | BadStatus(key: int, value: string)

  /** The loop of `load` over the stored entries, entry by entry: each is
      decoded and assigned under its key; the first unknown status stops the
      load. */
  function LoadEntries(entries: seq<(int, RawTodo)>): (r: LoadOutcome)
    ensures r.Loaded? ==> WellFormed(r.todos, r.order)
    decreases |entries|
  {
    if entries == [] then Loaded(map[], [])
    else
      var n := |entries| - 1;
      var key := entries[n].0;
      var raw := entries[n].1;
      match LoadEntries(entries[..n])
      case BadStatus(k, v) => BadStatus(k, v)
      case Loaded(todos, order) =>
        match Decode(key, raw)
        case None => BadStatus(key, raw.status)
        case Some(t) =>
          AssignKeepsWellFormed(todos, order, t);
          Loaded(todos[key := t], if key in todos then order else order + [key])
  }

  /** Entry `i` holds the first status string `TodoStatus` rejects. */
  ghost predicate FirstBadStatus(entries: seq<(int, RawTodo)>, i: int)
  {
    && 0 <= i < |entries|
    && ParseStatus(entries[i].1.status).None?
    && forall j :: 0 <= j < i ==> ParseStatus(entries[j].1.status).Some?
  }

  /** The load fails exactly when some stored status string is unknown, and
      it then reports the first such entry. */
  lemma {:induction false} LoadFailsOnBadStatus(entries: seq<(int, RawTodo)>)
    ensures LoadEntries(entries).Loaded?
            <==> forall i :: 0 <= i < |entries| ==> ParseStatus(entries[i].1.status).Some?
    ensures LoadEntries(entries).BadStatus? ==>
              exists i :: FirstBadStatus(entries, i) && entries[i].0 == LoadEntries(entries).key
                          && entries[i].1.status == LoadEntries(entries).value
    decreases |entries|
  {
    if entries != [] {
      var n := |entries| - 1;
      var prefix := entries[..n];
      LoadFailsOnBadStatus(prefix);
      assert forall i :: 0 <= i < n ==> prefix[i] == entries[i];
      if LoadEntries(prefix).BadStatus? {
        var i :| FirstBadStatus(prefix, i) && prefix[i].0 == LoadEntries(prefix).key
                 && prefix[i].1.status == LoadEntries(prefix).value;
        assert FirstBadStatus(entries, i);
      } else if LoadEntries(entries).BadStatus? {
        assert FirstBadStatus(entries, n);
      }
    }
  }

  /** The keys of the stored entries, in file order. */
  function EntryKeys(entries: seq<(int, RawTodo)>): (keys: seq<int>)
    ensures |keys| == |entries| && forall i :: 0 <= i < |entries| ==> keys[i] == entries[i].0
  {
    seq(|entries|, i requires 0 <= i < |entries| => entries[i].0)
  }

  /** When no key is stored twice, a successful load lists the keys in the
      order of the file. */
  lemma {:induction false} LoadedOrder(entries: seq<(int, RawTodo)>)
    requires forall i, j :: 0 <= i < j < |entries| ==> entries[i].0 != entries[j].0
    ensures LoadEntries(entries).Loaded? ==> LoadEntries(entries).order == EntryKeys(entries)
    decreases |entries|
  {
    if entries != [] {
      var n := |entries| - 1;
      var prefix := entries[..n];
      var key := entries[n].0;
      var keys := EntryKeys(prefix);
      assert key !in keys by {
        assert forall i :: 0 <= i < n ==> keys[i] == entries[i].0 != key;
      }
      assert EntryKeys(entries) == keys + [key] by {
        assert forall i :: 0 <= i < n ==> prefix[i] == entries[i];
      }
      assert forall i, j :: 0 <= i < j < |prefix| ==> prefix[i].0 != prefix[j].0 by {
        assert forall i :: 0 <= i < n ==> prefix[i] == entries[i];
      }
      LoadedOrder(prefix);
      LoadStepOrder(entries, keys);
    }
  }

  /** When the load of all but the last entry lists `keys` and the last key
      is not among them, a successful load lists `keys` and then that key. */
  lemma LoadStepOrder(entries: seq<(int, RawTodo)>, keys: seq<int>)
    requires entries != [] && entries[|entries| - 1].0 !in keys
    requires LoadEntries(entries[..|entries| - 1]).Loaded? ==> LoadEntries(entries[..|entries| - 1]).order == keys
    ensures LoadEntries(entries).Loaded? ==> LoadEntries(entries).order == keys + [entries[|entries| - 1].0]
  {
  }

  /** A successful load holds exactly the stored keys. */
  lemma {:induction false} LoadedKeys(entries: seq<(int, RawTodo)>)
    ensures LoadEntries(entries).Loaded? ==>
              forall k :: k in LoadEntries(entries).todos <==> exists i :: 0 <= i < |entries| && entries[i].0 == k
    decreases |entries|
  {
    var r := LoadEntries(entries);
    if entries != [] && r.Loaded? {
      var n := |entries| - 1;
      var prefix := entries[..n];
      LoadedKeys(prefix);
      var p := LoadEntries(prefix);
      assert r.todos == p.todos[entries[n].0 := r.todos[entries[n].0]];
      forall k
        ensures k in r.todos <==> exists i :: 0 <= i < |entries| && entries[i].0 == k
      {
        if k in p.todos {
          var i :| 0 <= i < |prefix| && prefix[i].0 == k;
          assert entries[i] == prefix[i];
        } else if k != entries[n].0 {
          forall i | 0 <= i < |entries|
            ensures entries[i].0 != k
          {
            if i < n {
              assert entries[i] == prefix[i];
            }
          }
        }
      }
    }
  }

  /** Under each key a successful load holds the record decoded from the last
      entry with that key. */
  lemma {:induction false} LoadedValues(entries: seq<(int, RawTodo)>, i: int)
    requires 0 <= i < |entries| && LoadEntries(entries).Loaded?
    requires forall j :: i < j < |entries| ==> entries[j].0 != entries[i].0
    ensures entries[i].0 in LoadEntries(entries).todos
    ensures Decode(entries[i].0, entries[i].1) == Some(LoadEntries(entries).todos[entries[i].0])
    decreases |entries|
  {
    var n := |entries| - 1;
    var prefix := entries[..n];
    if i < n {
      assert prefix[i] == entries[i];
      LoadedValues(prefix, i);
    }
  }

  /** Once a prefix of the entries fails, the whole load fails the same way. */
  lemma {:induction false} BadStatusStopsLoad(entries: seq<(int, RawTodo)>, n: nat)
    requires n <= |entries| && LoadEntries(entries[..n]).BadStatus?
    ensures LoadEntries(entries) == LoadEntries(entries[..n])
    decreases |entries| - n
  {
    if n == |entries| {
      assert entries[..n] == entries;
    } else {
      assert entries[..n + 1][..n] == entries[..n];
      BadStatusStopsLoad(entries, n + 1);
    }
  }

  /** The document `save` writes: each record converted, in insertion order. */
  function Encoded(todos: map<int, JsonTodo>, order: seq<int>): (doc: seq<(int, RawTodo)>)
    requires forall i :: 0 <= i < |order| ==> order[i] in todos
    ensures |doc| == |order|
    ensures forall i :: 0 <= i < |doc| ==>
              && doc[i].0 == order[i]
              && doc[i].1 == Encode(todos[order[i]])
              && Decode(doc[i].0, doc[i].1) == Some(todos[order[i]].(id := order[i]))
  {
    seq(|order|, i requires 0 <= i < |order| && order[i] in todos => (order[i], Encode(todos[order[i]])))
  }

  /** Loading what `save` wrote gives back the same records in the same
      order. */
  lemma {:induction false} SaveThenLoad(todos: map<int, JsonTodo>, order: seq<int>)
    requires WellFormed(todos, order)
    ensures LoadEntries(Encoded(todos, order)) == Loaded(todos, order)
    decreases |order|
  {
    if order == [] {
      SizeMatchesOrder(todos, order);
    } else {
      var n := |order| - 1;
      var k := order[n];
      DropLastKeepsWellFormed(todos, order);
      SaveThenLoad(todos - {k}, order[..n]);
      EncodedPrefix(todos, order);
      LoadLastEntry(Encoded(todos, order), todos - {k}, order[..n], todos[k]);
    }
  }

  /** The last entry of a document, holding a record under a new key, is
      loaded after the others. */
  lemma LoadLastEntry(doc: seq<(int, RawTodo)>, rest: map<int, JsonTodo>, restOrder: seq<int>, t: JsonTodo)
    requires doc != [] && t.id !in rest
    requires LoadEntries(doc[..|doc| - 1]) == Loaded(rest, restOrder)
    requires doc[|doc| - 1] == (t.id, Encode(t))
    ensures LoadEntries(doc) == Loaded(rest[t.id := t], restOrder + [t.id])
  {
    DecodeEncode(t);
  }

  /** Taking the last key off a well-formed dictionary leaves a well-formed
      one, from which the original is rebuilt by assigning that key again. */
  lemma DropLastKeepsWellFormed(todos: map<int, JsonTodo>, order: seq<int>)
    requires WellFormed(todos, order) && order != []
    ensures var k := order[|order| - 1];
            && k in todos && todos[k].id == k
            && k !in order[..|order| - 1]
            && WellFormed(todos - {k}, order[..|order| - 1])
            && order == order[..|order| - 1] + [k]
            && todos == (todos - {k})[k := todos[k]]
  {
    var n := |order| - 1;
    var k := order[n];
    var rest := todos - {k};
    var restOrder := order[..n];
    forall x | x in rest
      ensures x in restOrder
    {
      assert x in order;
      var i :| 0 <= i < |order| && order[i] == x;
      assert i < n;
    }
  }

  /** The document written for a well-formed dictionary is the document for
      all but its last key, followed by the entry for that key. */
  lemma EncodedPrefix(todos: map<int, JsonTodo>, order: seq<int>)
    requires WellFormed(todos, order) && order != []
    ensures var n := |order| - 1;
            && |Encoded(todos, order)| == |order|
            && order[n] !in order[..n]
            && Encoded(todos, order)[..n] == Encoded(todos - {order[n]}, order[..n])
            && Encoded(todos, order)[n] == (order[n], Encode(todos[order[n]]))
  {
    DropLastKeepsWellFormed(todos, order);
  }

  // ---------------------------------------------------------------------
  // The manager
  // ---------------------------------------------------------------------

  /** `JsonManager`: the dictionary of tasks held in memory (`todos`, with its
      key order `order`) and the contents of the JSON file (`disk`). */
  class JsonManager {
    var todos: map<int, JsonTodo>
    var order: seq<int>
    var disk: StoredFile

    ghost predicate Valid()
      reads this
    {
      WellFormed(todos, order)
    }

    constructor FromLoaded(file: StoredFile, todos: map<int, JsonTodo>, order: seq<int>)
      requires WellFormed(todos, order)
      ensures Valid()
      ensures this.todos == todos && this.order == order && disk == file
    {
      this.todos := todos;
      this.order := order;
      disk := file;
    }

    /** `load`: a missing or unparsable file gives an empty dictionary;
        otherwise every entry is decoded in turn. */
    static method Load(file: StoredFile) returns (r: LoadOutcome)
      ensures !file.Parsed? ==> r == Loaded(map[], [])
      ensures file.Parsed? ==> r == LoadEntries(file.entries)
    {
      if !file.Parsed? {
        return Loaded(map[], []);
      }
      var entries := file.entries;
      var todos: map<int, JsonTodo> := map[];
      var order: seq<int> := [];
      var i := 0;
      while i < |entries|
        invariant 0 <= i <= |entries|
        invariant LoadEntries(entries[..i]) == Loaded(todos, order)
      {
        var key := entries[i].0;
        var raw := entries[i].1;
        assert entries[..i + 1][..i] == entries[..i];
        var status := ParseStatus(raw.status);
        if status.None? {
          BadStatusStopsLoad(entries, i + 1);
          return BadStatus(key, raw.status);
        }
        if key !in todos {
          order := order + [key];
        }
        todos := todos[key := JsonTodo(key, raw.description, status.value, raw.createdAt, raw.updatedAt)];
        i := i + 1;
      }
      assert entries[..i] == entries;
      r := Loaded(todos, order);
    }

    /** `JsonManager(path)`: load the file; `None` when the load raises. */
    static method Open(file: StoredFile) returns (r: Option<JsonManager>)
      ensures r.None? <==> file.Parsed? && LoadEntries(file.entries).BadStatus?
      ensures r.Some? ==> fresh(r.value) && r.value.Valid() && r.value.disk == file
      ensures r.Some? && !file.Parsed? ==> r.value.todos == map[] && r.value.order == []
      ensures r.Some? && file.Parsed? ==> LoadEntries(file.entries) == Loaded(r.value.todos, r.value.order)
    {
      var loaded := Load(file);
      if loaded.BadStatus? {
        return None;
      }
      var manager := new JsonManager.FromLoaded(file, loaded.todos, loaded.order);
      r := Some(manager);
    }

    /** `save`: the file now holds the whole dictionary. */
    method Save()
      requires Valid()
      modifies this`disk
      ensures disk == Parsed(Encoded(todos, order))
    {
      disk := Parsed(Encoded(todos, order));
    }

    /** `get(id, default=None)`. */
    function Get(id: int, default: Option<JsonTodo> := None): (r: Option<JsonTodo>)
      reads this
      requires Valid()
      ensures id in todos ==> r.Some? && r.value.id == id && r.value in GetAll()
      ensures id !in todos ==> r == default
    {
      ValuesAreStored(todos, order);
      if id in todos then Some(todos[id]) else default
    }

    /** `add(todo)`: store the record under its own id, then save. */
    method Add(todo: JsonTodo)
      requires Valid()
      modifies this
      ensures Valid()
      ensures todos == old(todos)[todo.id := todo]
      ensures order == if todo.id in old(todos) then old(order) else old(order) + [todo.id]
      ensures disk == Parsed(Encoded(todos, order))
    {
      if todo.id !in todos {
        order := order + [todo.id];
      }
      todos := todos[todo.id := todo];
      Save();
    }

    /** `update(id, description, status)`: set the given fields, refresh
        `updated_at`, save and return the stored record; `None` and no change
        when the id is unknown. */
    method Update(id: int, now: Timestamp, description: Option<string> := None, status: Option<TodoStatus> := None)
      returns (r: Option<JsonTodo>)
      requires Valid()
      modifies this
      ensures Valid() && order == old(order)
      ensures id !in old(todos) ==> r == None && todos == old(todos) && disk == old(disk)
      ensures id in old(todos) ==> r.Some? && todos == old(todos)[id := r.value]
      ensures id in old(todos) ==>
                var was := old(todos)[id];
                && r.value.id == id
                && r.value.description == (if description.Some? then description.value else was.description)
                && r.value.status == (if status.Some? then status.value else was.status)
                && r.value.createdAt == was.createdAt
                && r.value.updatedAt == now
      ensures id in old(todos) ==> disk == Parsed(Encoded(todos, order))
    {
      var found := Get(id);
      if found.None? {
        return None;
      }
      var todo := found.value;
      if description.Some? {
        todo := todo.(description := description.value);
      }
      if status.Some? {
        todo := todo.(status := status.value);
      }
      todo := todo.(updatedAt := now);
      todos := todos[id := todo];
      Save();
      r := Some(todo);
    }

    /** `delete(id)`: remove the entry and save; nothing happens when the id
        is unknown. */
    method Delete(id: int)
      requires Valid()
      modifies this
      ensures Valid()
      ensures todos == old(todos) - {id}
      ensures order == Without(old(order), id)
      ensures id in old(todos) ==> disk == Parsed(Encoded(todos, order))
      ensures id !in old(todos) ==> todos == old(todos) && order == old(order) && disk == old(disk)
    {
      if id in todos {
        RemoveKeepsWellFormed(todos, order, id);
        todos := todos - {id};
        order := Without(order, id);
        Save();
      }
    }

    /** `get_all()`: every stored record once, in insertion order. */
    function GetAll(): (all: seq<JsonTodo>)
      reads this
      requires Valid()
      ensures |all| == |todos| == |order|
      ensures forall i :: 0 <= i < |order| ==> all[i] == todos[order[i]]
      ensures forall k :: k in todos ==> todos[k] in all
      ensures forall t :: t in all ==> t.id in todos && todos[t.id] == t
    {
      SizeMatchesOrder(todos, order);
      ValuesAreStored(todos, order);
      Values(todos, order)
    }

    /** `get_all_by_status(status)`: the records of `get_all()` with that
        status, in the same relative order. */
    function GetAllByStatus(status: TodoStatus): (r: seq<JsonTodo>)
      reads this
      requires Valid()
      ensures IsSubsequence(r, GetAll())
      ensures forall t :: t in r <==> t in GetAll() && t.status == status
    {
      WithStatus(GetAll(), status)
    }

    /** The id `create` hands out: `max(keys, default=0) + 1`. */
    function NextId(): (id: int)
      reads this
      requires Valid()
      ensures forall k :: k in todos ==> k < id
      ensures if todos == map[] then id == 1 else id - 1 in todos
    {
      SizeMatchesOrder(todos, order);
      MaxOrDefault(order, 0) + 1
    }

    /** `create(description, status=TodoStatus.TODO)`: a new record under the next id, both
        timestamps `now`, added and saved. */
    method Create(description: string, now: Timestamp, status: TodoStatus := Todo) returns (t: JsonTodo)
      requires Valid()
      modifies this
      ensures Valid()
      ensures t.id !in old(todos) && forall k :: k in old(todos) ==> k < t.id
      ensures if old(todos) == map[] then t.id == 1 else t.id - 1 in old(todos)
      ensures t.description == description && t.status == status
      ensures t.createdAt == now && t.updatedAt == now
      ensures todos == old(todos)[t.id := t] && order == old(order) + [t.id]
      ensures disk == Parsed(Encoded(todos, order))
    {
      var id := NextId();
      t := JsonTodo(id, description, status, now, now);
      Add(t);
    }
  }

  /** Ids are handed out again: deleting the task just created and creating
      another gives the second task the same id. */
  method CreateDeleteCreate(m: JsonManager, description: string, status: TodoStatus,
                            now: Timestamp, later: Timestamp)
    returns (first: JsonTodo, second: JsonTodo)
    requires m.Valid()
    modifies m
    ensures first.id == second.id
    ensures m.todos == old(m.todos)[second.id := second]
  {
    first := m.Create(description, now, status);
    m.Delete(first.id);
    assert m.todos == old(m.todos);
    second := m.Create(description, later, status);
  }
}

/** src/data.rs: the databases with their shared maps, and the replication state. */
module Data {
  import opened Basics
  import opened Executor
  import opened RdbSpec
  import RdbReader

  /** `Arc<Mutex<HashMap<String, StringData>>>`: a map that several holders may share. */
  class Table {
    var entries: Store

    constructor (entries: Store)
      ensures this.entries == entries
    {
      this.entries := entries;
    }
  }

  class ReplicationInfo {
    var role: Role
    var masterReplid: string
    var masterReplOffset: u64

    constructor (replid: string)
      ensures role == Master && masterReplid == replid && masterReplOffset == 0
    {
      role := Master;
      masterReplid := replid;
      masterReplOffset := 0;
    }

    method ChangeRole(newRole: Role)
      modifies this`role
      ensures role == newRole
    {
      role := newRole;
    }

    method IncrementOffset(num: u64)
      modifies this`masterReplOffset
      ensures masterReplOffset == Wrap64(old(masterReplOffset) + num)
    {
      masterReplOffset := Wrap64(masterReplOffset + num);
    }
  }

  /** What collecting the pairs of a dataset into a map gives: later pairs replace earlier ones. */
  function LastWins(pairs: seq<Pair>): Store {
    if pairs == [] then map[]
    else
      var last := pairs[|pairs| - 1];
      LastWins(pairs[..|pairs| - 1])[last.key := StringData(last.value, last.expiration)]
  }

  lemma {:induction false} LoadedKeys(pairs: seq<Pair>, key: string)
    ensures key in LastWins(pairs) <==> exists i :: 0 <= i < |pairs| && pairs[i].key == key
  {
    if pairs != [] {
      var init, last := pairs[..|pairs| - 1], pairs[|pairs| - 1];
      LoadedKeys(init, key);
      assert pairs == init + [last];
      if key in LastWins(init) {
        var i :| 0 <= i < |init| && init[i].key == key;
        assert pairs[i].key == key;
      }
    }
  }

  /** A loaded key holds the value and expiry of its last pair in file order, and no other key is there. */
  lemma {:induction false} LoadedIsLast(pairs: seq<Pair>, key: string, i: nat)
    requires i < |pairs| && pairs[i].key == key && forall j | i < j < |pairs| :: pairs[j].key != key
    ensures key in LastWins(pairs) && LastWins(pairs)[key] == StringData(pairs[i].value, pairs[i].expiration)
  {
    if i < |pairs| - 1 {
      var init := pairs[..|pairs| - 1];
      assert forall j | i < j < |init| :: init[j].key == pairs[j].key;
      LoadedIsLast(init, key, i);
    }
  }

  class Admin {
    var databases: seq<Table>
    var curIdx: nat
    ghost var loaded: nat

    /** The current index is in range; loaded databases have maps of their own, the others share one. */
    ghost predicate Valid()
      reads this
    {
      && curIdx < |databases| && loaded <= |databases|
      && forall i, j | 0 <= i < |databases| && 0 <= j < |databases| ::
           databases[i] == databases[j] <==> i == j || (i >= loaded && j >= loaded)
    }

    function Current(): Table
      requires Valid()
      reads this
    {
      databases[curIdx]
    }

    /** `Admin::new`: at least sixteen databases, filled from the datasets in order. */
    constructor (preload: seq<seq<Pair>>)
      ensures Valid() && fresh(databases)
      ensures curIdx == 0 && loaded == |preload|
      ensures |databases| >= |preload| && |databases| >= 16 && (|databases| == |preload| || |databases| == 16)
      ensures forall i | 0 <= i < |preload| :: databases[i].entries == LastWins(preload[i])
      ensures forall i | |preload| <= i < |databases| :: databases[i].entries == map[]
    {
      var length := Max(|preload|, 16);
      var shared := new Table(map[]);
      var tables: seq<Table> := seq(length, i => shared);
      for idx := 0 to |preload|
        invariant |tables| == length && fresh(shared) && shared.entries == map[]
        invariant forall i | 0 <= i < idx :: fresh(tables[i]) && tables[i] != shared
        invariant forall i | 0 <= i < idx :: tables[i].entries == LastWins(preload[i])
        invariant forall i, j | 0 <= i < j < idx :: tables[i] != tables[j]
        invariant forall i | idx <= i < length :: tables[i] == shared
      {
        var stringData := Collect(preload[idx]);
        var table := new Table(stringData);
        tables := tables[idx := table];
      }
      databases := tables;
      curIdx := 0;
      loaded := |preload|;
    }

    method SelectDatabase(idx: nat)
      requires Valid()
      modifies this`curIdx
      ensures Valid()
      ensures curIdx == if idx < |databases| then idx else old(curIdx)
    {
      if idx < |databases| {
        curIdx := idx;
      }
    }

    method GetStringDataMap() returns (table: Table)
      requires Valid()
      ensures table == Current()
    {
      table := databases[curIdx];
    }

    /** An insert through the current map reaches the current database and those that share its map, and
        no other: writing to a loaded database never changes another one. */
    method InsertCurrent(key: string, data: StringData)
      requires Valid()
      modifies Current()
      ensures forall i | 0 <= i < |databases| :: databases[i].entries ==
                if i == curIdx || (i >= loaded && curIdx >= loaded) then old(databases[i].entries)[key := data]
                else old(databases[i].entries)
    {
      var table := GetStringDataMap();
      table.entries := table.entries[key := data];
    }
  }

  /** The pairs of a dataset, inserted in order. */
  method Collect(pairs: seq<Pair>) returns (entries: Store)
    ensures entries == LastWins(pairs)
  {
    entries := map[];
    for i := 0 to |pairs|
      invariant entries == LastWins(pairs[..i])
    {
      assert pairs[..i + 1][..i] == pairs[..i];
      entries := entries[pairs[i].key := StringData(pairs[i].value, pairs[i].expiration)];
    }
    assert pairs[..|pairs|] == pairs;
  }

  /** Start-up: at least sixteen databases, filled from the RDB file if it can be read; all others empty. */
  method Load(bytes: Bytes) returns (admin: Admin)
    ensures fresh(admin) && admin.Valid() && fresh(admin.databases)
    ensures var r := ReadRdb(bytes);
            var datasets := if r.Ok? then r.value.0.datasets else [];
            && admin.curIdx == 0 && admin.loaded == |datasets|
            && |admin.databases| >= |datasets| && |admin.databases| >= 16
            && (|admin.databases| == |datasets| || |admin.databases| == 16)
            && (forall i | 0 <= i < |datasets| :: admin.databases[i].entries == LastWins(datasets[i]))
            && (forall i | |datasets| <= i < |admin.databases| :: admin.databases[i].entries == map[])
  {
    var r := RdbReader.ReadRdb(bytes);
    if r.Ok? {
      admin := new Admin(r.value.datasets);
    } else {
      admin := new Admin([]);
    }
  }
}

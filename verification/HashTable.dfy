/** The hash engine of the key-value store: an array of chains of node objects, relinked in
    place when the table doubles. */
module HashTable {
  import opened CStrings
  import opened Options
  import opened HashChains

  class HashNode {
    var key: CString
    var value: CString
    var next: HashNode?

    constructor (key: CString, value: CString)
      ensures this.key == key && this.value == value && next == null
    {
      this.key := key;
      this.value := value;
      this.next := null;
    }
  }

  type Links = Chain<HashNode>

  /** What one node object holds. */
  datatype Cell = Cell(e: Entry, next: HashNode?)

  type Memory = map<HashNode, Cell>

  ghost function Snapshot(repr: set<HashNode>): Memory
    reads repr
  {
    map n | n in repr :: Cell(Entry(n.key, n.value), n.next)
  }

  /** The first node of a chain from position `j` on. */
  ghost function HeadAt(c: Links, j: nat): HashNode? {
    if j < |c| then c[j].0 else null
  }

  /** Followed from `head`, memory holds exactly the chain `c`. */
  ghost predicate Stored(c: Links, head: HashNode?, mem: Memory) {
    && head == HeadAt(c, 0)
    && forall j :: 0 <= j < |c| ==> c[j].0 in mem && mem[c[j].0] == Cell(c[j].1, HeadAt(c, j + 1))
  }

  /** The chains from slot `lo` on hang from the given heads. */
  ghost predicate AllStored(t: Table<HashNode>, heads: seq<HashNode?>, lo: nat, mem: Memory) {
    |t| == |heads| && forall i :: lo <= i < |t| ==> Stored(t[i], heads[i], mem)
  }

  /** A chain without the key of the one object that changed is still stored: different keys
      make different objects. */
  lemma StillStored(c: Links, head: HashNode?, mem: Memory, n: HashNode, cell: Cell)
    requires Stored(c, head, mem) && n in mem && Absent(c, mem[n].e.key)
    ensures Stored(c, head, mem[n := cell])
  {
  }

  lemma AllStillStored(t: Table<HashNode>, heads: seq<HashNode?>, lo: nat, mem: Memory, n: HashNode, cell: Cell)
    requires AllStored(t, heads, lo, mem) && n in mem
    requires forall i :: lo <= i < |t| ==> Absent(t[i], mem[n].e.key)
    ensures AllStored(t, heads, lo, mem[n := cell])
  {
    forall i | lo <= i < |t| ensures Stored(t[i], heads[i], mem[n := cell]) {
      StillStored(t[i], heads[i], mem, n, cell);
    }
  }

  lemma NoneStored(t: Table<HashNode>, heads: seq<HashNode?>, mem: Memory)
    requires |t| == |heads| && forall s :: 0 <= s < |t| ==> t[s] == [] && heads[s] == null
    ensures AllStored(t, heads, 0, mem)
  {
  }

  lemma TailStored(c: Links, j: nat, node: HashNode, mem: Memory)
    requires j <= |c| && Stored(c[j..], node, mem)
    ensures j < |c| && node == c[j].0 && node in mem && mem[node].e == c[j].1
    ensures Stored(c[j + 1..], mem[node].next, mem)
  {
    var d := c[j..];
    assert d[0] == c[j];
    assert c[j + 1..] == d[1..];
  }

  /** The chain of slot `lo`, apart from those after it. */
  lemma ChainOff(t: Table<HashNode>, heads: seq<HashNode?>, lo: nat, mem: Memory)
    requires AllStored(t, heads, lo, mem) && lo < |t|
    ensures Stored(t[lo][0..], heads[lo], mem) && AllStored(t, heads, lo + 1, mem)
  {
    assert t[lo][0..] == t[lo];
  }

  lemma EndStored(c: Links, mem: Memory)
    requires Stored(c, null, mem)
    ensures c == []
  {
  }

  lemma SnapshotAt(repr: set<HashNode>, n: HashNode)
    requires n in Snapshot(repr)
    ensures n in repr && Snapshot(repr)[n] == Cell(Entry(n.key, n.value), n.next)
  {
  }

  lemma PushStored(c: Links, x: (HashNode, Entry), head: HashNode?, mem: Memory)
    requires Stored(c, head, mem) && x.0 in mem && mem[x.0] == Cell(x.1, head)
    ensures Stored([x] + c, x.0, mem)
  {
  }

  /** One chain of a table: its head, its distinct keys and what its node `j` holds. */
  lemma StoredAt(t: Table<HashNode>, heads: seq<HashNode?>, mem: Memory, i: nat)
    requires AllStored(t, heads, 0, mem) && Sound(t) && i < |t|
    ensures Stored(t[i], heads[i], mem) && KeysDistinct(t[i]) && heads[i] == HeadAt(t[i], 0)
  {
  }

  lemma CellAt(c: Links, head: HashNode?, mem: Memory, j: nat)
    requires Stored(c, head, mem) && j < |c|
    ensures HeadAt(c, j) == c[j].0 && c[j].0 in mem && mem[c[j].0] == Cell(c[j].1, HeadAt(c, j + 1))
  {
  }

  /** One chain rewritten through the object `n` that holds its key; the others untouched. */
  lemma {:induction false} RewriteStored(t: Table<HashNode>, heads: seq<HashNode?>, mem: Memory, n: HashNode,
      cell: Cell,
                      i: nat, c': Links, head': HashNode?)
    requires AllStored(t, heads, 0, mem) && Sound(t) && i < |t|
    requires n in mem && Slot(mem[n].e.key, |t|) == i
    requires Stored(c', head', mem[n := cell])
    ensures AllStored(t[i := c'], heads[i := head'], 0, mem[n := cell])
  {
    var t', heads', mem' := t[i := c'], heads[i := head'], mem[n := cell];
    forall r | 0 <= r < |t| ensures Stored(t'[r], heads'[r], mem') {
      if r != i {
        assert Absent(t[r], mem[n].e.key) by { assert Placed(t[r], r, |t|); }
        StillStored(t[r], heads[r], mem, n, cell);
      }
    }
  }

  /** A new object before the chain of slot `i`. */
  lemma {:induction false} ExtendStored(t: Table<HashNode>, heads: seq<HashNode?>, mem: Memory, n: HashNode, cell: Cell,
                      i: nat, x: (HashNode, Entry))
    requires AllStored(t, heads, 0, mem) && i < |t| && n !in mem
    requires x.0 == n && cell == Cell(x.1, heads[i])
    ensures AllStored(t[i := [x] + t[i]], heads[i := n], 0, mem[n := cell])
  {
    var t', heads', mem' := t[i := [x] + t[i]], heads[i := n], mem[n := cell];
    forall r | 0 <= r < |t| ensures Stored(t'[r], heads'[r], mem') {
      assert Stored(t[r], heads[r], mem');
      if r == i { PushStored(t[i], x, heads[i], mem'); }
    }
  }

  /** The first node of slot `i` dropped. */
  lemma {:induction false} BeheadStored(t: Table<HashNode>, heads: seq<HashNode?>, mem: Memory, i: nat)
    requires AllStored(t, heads, 0, mem) && i < |t| && t[i] != []
    ensures AllStored(t[i := t[i][1..]], heads[i := HeadAt(t[i], 1)], 0, mem)
  {
    var t', heads' := t[i := t[i][1..]], heads[i := HeadAt(t[i], 1)];
    forall r | 0 <= r < |t| ensures Stored(t'[r], heads'[r], mem) {
      assert Stored(t[r], heads[r], mem);
    }
  }

  lemma OverwriteStored(c: Links, head: HashNode?, mem: Memory, j: nat, v: CString)
    requires Stored(c, head, mem) && KeysDistinct(c) && j < |c|
    ensures var e := Entry(c[j].1.key, v);
            Stored(c[j := (c[j].0, e)], head, mem[c[j].0 := Cell(e, HeadAt(c, j + 1))])
  {
    forall i | 0 <= i < |c| && i != j ensures c[i].0 != c[j].0 {
      assert mem[c[i].0].e == c[i].1 && mem[c[j].0].e == c[j].1;
    }
  }

  /** Bypassing node `j + 1` removes it from the chain. */
  lemma BypassStored(c: Links, head: HashNode?, mem: Memory, j: nat)
    requires Stored(c, head, mem) && KeysDistinct(c) && j + 1 < |c|
    ensures Stored(c[..j + 1] + c[j + 2..], head, mem[c[j].0 := Cell(c[j].1, HeadAt(c, j + 2))])
  {
    var c', mem' := c[..j + 1] + c[j + 2..], mem[c[j].0 := Cell(c[j].1, HeadAt(c, j + 2))];
    forall i | 0 <= i < |c'| ensures c'[i].0 in mem' && mem'[c'[i].0] == Cell(c'[i].1, HeadAt(c', i + 1)) {
      var r := if i <= j then i else i + 1;
      assert c'[i] == c[r];
      assert mem[c[r].0].e == c[r].1 && mem[c[j].0].e == c[j].1;
      assert HeadAt(c', i + 1) == if i + 1 <= j then HeadAt(c, i + 1) else HeadAt(c, i + 2);
    }
  }

  lemma SlotAt(t: Table<HashNode>, i: nat, j: nat)
    requires Sound(t) && i < |t| && j < |t[i]|
    ensures Slot(t[i][j].1.key, |t|) == i
  {
    assert Placed(t[i], i, |t|);
  }

  lemma OtherSlot(t: Table<HashNode>, i: nat, j: nat, r: nat)
    requires Sound(t) && i < |t| && j < |t[i]| && r < |t| && r != i
    ensures Absent(t[r], t[i][j].1.key)
  {
    assert Placed(t[i], i, |t|) && Placed(t[r], r, |t|);
  }

  method Hash(key: CString, size: nat) returns (idx: nat)
    requires size > 0
    ensures idx == Slot(key, size)
  {
    var h: nat := 5381;
    var i := 0;
    while i < |key|
      invariant 0 <= i <= |key|
      invariant HashFrom(h, key[i..]) == HashFrom(5381, key)
    {
      assert key[i..][1..] == key[i + 1..];
      h := (((h * 32) % WORD + h) % WORD + key[i]) % WORD;
      i := i + 1;
    }
    idx := h % size;
  }

  class HashTable {
    var nodes: array<HashNode?>
    var maxSlots: nat
    var count: nat

    /** The mutex; an operation that finds it held would wait forever. */
    var locked: bool

    /** The chains, the node objects made so far, and the map they stand for. */
    ghost var table: Table<HashNode>
    ghost var repr: set<HashNode>
    ghost var dict: map<CString, CString>

    /** The array and the objects hanging from it are exactly `table`. */
    ghost predicate Linked()
      reads this`nodes, this`maxSlots, this`table, this`repr, nodes, repr
    {
      && nodes.Length == maxSlots == |table| && maxSlots > 0 && Sound(table)
      && AllStored(table, nodes[..], 0, Snapshot(repr))
    }

    /** The invariant of the engine between calls. */
    ghost predicate Valid()
      reads this`nodes, this`maxSlots, this`count, this`table, this`repr, this`dict, nodes, repr
    {
      && Linked() && Represents(table, dict) && count == |dict|
      && SizeOk(maxSlots) && maxSlots <= MAX_SLOTS && 10 * count <= 7 * maxSlots
    }

    /** What a call can see of `key` before it walks a chain. */
    lemma LookFor(key: CString)
      requires Valid()
      ensures Linked() && nodes.Length == maxSlots == |table| && maxSlots > 0
      ensures var i := Slot(key, |table|);
              && (nodes[i] == null <==> table[i] == [])
              && (nodes[i] != null ==> nodes[i].key == table[i][0].1.key)
              && (key in dict <==> !Absent(table[i], key))
      ensures key !in dict ==> dict - {key} == dict
    {
      hide Sound, Represents, SizeOk, Slot;
      var i := Slot(key, |table|);
      assert Stored(table[i], nodes[..][i], Snapshot(repr));
      AbsentKey(table, dict, key);
      MapSizes(dict, key, []);
    }

    /** Which bucket is empty, told by the map. */
    lemma BucketOf(key: CString)
      requires Valid()
      ensures |table| == maxSlots > 0
      ensures table[Slot(key, |table|)] == [] <==> forall x :: x in dict ==> Slot(x, maxSlots) != Slot(key, maxSlots)
    {
      hide Sound, Represents, AllStored, SizeOk, Slot, Snapshot;
      EmptyBucket(table, dict, Slot(key, |table|));
    }

    lemma Counted()
      requires Valid()
      ensures count == |dict|
    {
    }

    /** The empty table; all slots are taken to start out empty. */
    constructor ()
      ensures Valid() && dict == map[] && count == 0 && maxSlots == INITIAL_SLOTS && !locked
      ensures fresh(nodes) && repr == {}
    {
      nodes := new HashNode?[INITIAL_SLOTS](_ => null);
      maxSlots, count, locked := INITIAL_SLOTS, 0, false;
      repr, dict := {}, map[];
      table := seq(INITIAL_SLOTS, _ => []);
      new;
      NoneStored(table, nodes[..], Snapshot(repr));
    }

    /** Moves the nodes of chain `i` to the new array, head first. */
    method MoveChain(i: nat, newNodes: array<HashNode?>)
      requires nodes.Length == maxSlots == |table| && Sound(table) && i < maxSlots
      requires newNodes.Length == 2 * maxSlots && newNodes != nodes
      requires AllStored(table, nodes[..], i, Snapshot(repr))
      requires AllStored(Moved(table, i, 0), newNodes[..], 0, Snapshot(repr))
      modifies newNodes, repr`next
      ensures AllStored(table, nodes[..], i + 1, Snapshot(repr))
      ensures AllStored(Moved(table, i, |table[i]|), newNodes[..], 0, Snapshot(repr))
    {
      hide Moved, Sound, Stored, AllStored, Snapshot;
      ghost var c := table[i];
      ghost var j := 0;
      ChainOff(table, nodes[..], i, Snapshot(repr));
      var node := nodes[i];
      while node != null
        invariant 0 <= j <= |c|
        invariant Stored(c[j..], node, Snapshot(repr))
        invariant AllStored(table, nodes[..], i + 1, Snapshot(repr))
        invariant AllStored(Moved(table, i, j), newNodes[..], 0, Snapshot(repr))
        decreases |c| - j
      {
        TailStored(c, j, node, Snapshot(repr));
        SnapshotAt(repr, node);
        node := MoveNode(i, j, node, newNodes);
        j := j + 1;
      }
      EndStored(c[j..], Snapshot(repr));
    }

    /** Moves one node to the head of its new chain; returns the next one of the old chain. */
    method MoveNode(i: nat, ghost j: nat, node: HashNode, newNodes: array<HashNode?>) returns (next: HashNode?)
      requires nodes.Length == maxSlots == |table| && Sound(table) && i < maxSlots && j < |table[i]|
      requires newNodes.Length == 2 * maxSlots && newNodes != nodes
      requires Stored(table[i][j..], node, Snapshot(repr))
      requires AllStored(table, nodes[..], i + 1, Snapshot(repr))
      requires AllStored(Moved(table, i, j), newNodes[..], 0, Snapshot(repr))
      modifies newNodes, node`next
      ensures Stored(table[i][j + 1..], next, Snapshot(repr))
      ensures AllStored(table, nodes[..], i + 1, Snapshot(repr))
      ensures AllStored(Moved(table, i, j + 1), newNodes[..], 0, Snapshot(repr))
    {
      hide Moved, Slot, Snapshot;
      ghost var c, k, n, mem := table[i], table[i][j].1.key, Moved(table, i, j), Snapshot(repr);
      TailStored(c, j, node, mem);
      var idx := Hash(node.key, 2 * maxSlots);
      MovedStep(table, i, j);
      SnapshotAt(repr, node);
      next := node.next;
      WriteNext(node, newNodes[idx]);
      ghost var cell := Cell(c[j].1, newNodes[idx]);
      StillStored(c[j + 1..], next, mem, node, cell);
      forall r | i < r < |table| ensures Absent(table[r], k) {
        OtherSlot(table, i, j, r);
      }
      AllStillStored(table, nodes[..], i + 1, mem, node, cell);
      forall s | 0 <= s < 2 * |table| ensures Absent(n[s], k) {
        MovedAbsent(table, i, j, s);
      }
      AllStillStored(n, newNodes[..], 0, mem, node, cell);
      PushStored(n[idx], c[j], newNodes[idx], Snapshot(repr));
      newNodes[idx] := node;
    }

    method Resize()
      requires Linked()
      modifies this`nodes, this`maxSlots, this`table, repr`next
      ensures Linked() && fresh(nodes) && table == Double(old(table))
    {
      hide Moved, Double, Stored;
      var newSize := maxSlots * 2;
      var newNodes: array<HashNode?> := new HashNode?[newSize](_ => null);
      var i := 0;
      MovedFirst(table);
      NoneStored(Moved(table, 0, 0), newNodes[..], Snapshot(repr));
      while i < maxSlots
        invariant 0 <= i <= maxSlots == |table| == nodes.Length && newSize == 2 * maxSlots
        invariant table == old(table) && maxSlots == old(maxSlots) && nodes == old(nodes) && repr == old(repr)
        invariant AllStored(table, nodes[..], i, Snapshot(repr))
        invariant AllStored(Moved(table, i, 0), newNodes[..], 0, Snapshot(repr))
      {
        MoveChain(i, newNodes);
        MovedNext(table, i);
        i := i + 1;
      }
      MovedLast(table);
      DoubleSound(table);
      nodes := newNodes;
      maxSlots := newSize;
      table := Double(table);
    }

    /** Walks the chain of slot `idx` for `key`. */
    method Scan(idx: nat, key: CString) returns (node: HashNode?, ghost j: nat)
      requires Linked() && idx < |table|
      ensures Linked()
      ensures node == null ==> Absent(table[idx], key)
      ensures node != null ==> j < |table[idx]| && table[idx][j].0 == node && table[idx][j].1.key == key
      ensures node != null ==> node in repr && node.value == table[idx][j].1.value
    {
      hide Sound, Stored, Snapshot;
      ghost var c, mem := table[idx], Snapshot(repr);
      node, j := nodes[idx], 0;
      assert c[0..] == c;
      while node != null
        invariant 0 <= j <= |c| && Stored(c[j..], node, mem) && Absent(c[..j], key)
        decreases |c| - j
      {
        TailStored(c, j, node, mem);
        SnapshotAt(repr, node);
        StrCmpEqual(node.key, key);
        if StrCmp(node.key, key) == 0 {
          return;
        }
        node := node.next;
        j := j + 1;
      }
      EndStored(c[j..], mem);
      assert c[..j] == c;
    }

    method Get(key: CString) returns (value: Reply)
      requires Valid() && !locked
      ensures Valid()
      ensures value == if key in dict then Some(dict[key]) else None
    {
      var idx := Hash(key, maxSlots);
      var node, j := Scan(idx, key);
      GetAbsent(table[idx], key);
      assert Lookup(table, key) == if key in dict then Some(dict[key]) else None;
      if node == null {
        return None;
      }
      GetAround(table[idx], j, key);
      return Some(node.value);
    }

    /** PUT: overwrites or adds; doubles the table first when it would be over 70% full. */
    method Put(key: CString, value: CString) returns (ret: int)
      requires Valid() && !locked
      requires 10 * (count + 1) <= 7 * MAX_SLOTS
      modifies this, nodes, repr
      ensures Valid() && !locked && ret == 0
      ensures dict == old(dict)[key := value]
      ensures maxSlots == (if 10 * (old(count) + 1) > 7 * old(maxSlots) then 2 else 1) * old(maxSlots)
      ensures (nodes == old(nodes) || fresh(nodes)) && fresh(repr - old(repr))
    {
      hide Valid, Linked, Slot;
      locked := true;
      LookSize();
      if (count + 1) as real > maxSlots as real * 0.7 {
        Grow();
      }
      LookFor(key);
      var idx := Hash(key, maxSlots);
      var node, j := Scan(idx, key);
      if node != null {
        Overwrite(idx, j, node, key, value);
        locked := false;
        return 0;
      }
      Push(idx, key, value);
      locked := false;
      ret := 0;
    }

    /** Doubles a table that one more node would fill to over 70%. */
    method Grow()
      requires Valid() && 10 * (count + 1) > 7 * maxSlots && 10 * (count + 1) <= 7 * MAX_SLOTS
      modifies this`nodes, this`maxSlots, this`table, repr`next
      ensures Valid() && maxSlots == 2 * old(maxSlots) && fresh(nodes) && 10 * (count + 1) <= 7 * maxSlots
    {
      hide Represents, AllStored, Sound, Slot, Double, SizeOk, Snapshot;
      Growth(count, maxSlots);
      DoubleRepresents(table, dict);
      DoubleSound(table);
      Resize();
    }

    /** The load test in integers. */
    lemma LookSize()
      requires Valid() && 10 * (count + 1) <= 7 * MAX_SLOTS
      ensures (count + 1) as real > maxSlots as real * 0.7 <==> 10 * (count + 1) > 7 * maxSlots
    {
      Growth(count, maxSlots);
    }

    /** The assignment `node.value := value`, as a change of memory. */
    method WriteValue(node: HashNode, value: CString)
      requires node in repr
      modifies node`value
      ensures var mem := old(Snapshot(repr));
              Snapshot(repr) == mem[node := mem[node].(e := Entry(node.key, value))]
      ensures nodes[..] == old(nodes[..])
    {
      node.value := value;
    }

    /** The assignment `node.next := next`, as a change of memory. */
    method WriteNext(node: HashNode, next: HashNode?)
      requires node in repr
      modifies node`next
      ensures var mem := old(Snapshot(repr));
              Snapshot(repr) == mem[node := mem[node].(next := next)]
      ensures nodes[..] == old(nodes[..])
    {
      node.next := next;
    }

    /** A new node before the one in slot `idx`, as a change of memory. */
    method HangNew(idx: nat, key: CString, value: CString) returns (newNode: HashNode)
      requires idx < nodes.Length
      modifies nodes, this`repr
      ensures fresh(newNode) && repr == old(repr) + {newNode} && newNode !in old(Snapshot(repr))
      ensures Snapshot(repr) == old(Snapshot(repr))[newNode := Cell(Entry(key, value), old(nodes[idx]))]
      ensures nodes[..] == old(nodes[..])[idx := newNode]
    {
      newNode := new HashNode(key, value);
      newNode.next := nodes[idx];
      nodes[idx] := newNode;
      repr := repr + {newNode};
    }

    /** Writes `value` into the node found at position `j` of slot `idx`. */
    method Overwrite(idx: nat, ghost j: nat, node: HashNode, key: CString, value: CString)
      requires Valid() && idx == Slot(key, |table|)
      requires j < |table[idx]| && table[idx][j].0 == node && table[idx][j].1.key == key && node in repr
      modifies node`value, this`table, this`dict
      ensures Valid() && dict == old(dict)[key := value] && key in old(dict)
    {
      hide Sound, KeysDistinct, Slot, Represents, AllStored, Stored, SizeOk, Snapshot;
      ghost var c, mem, heads := table[idx], Snapshot(repr), nodes[..];
      ghost var e := Entry(key, value);
      ghost var cell, c' := Cell(e, HeadAt(c, j + 1)), c[j := (node, e)];
      StoredAt(table, heads, mem, idx);
      CellAt(c, heads[idx], mem, j);
      OverwriteStored(c, heads[idx], mem, j, value);
      RewriteStored(table, heads, mem, node, cell, idx, c', heads[idx]);
      OverwriteChain(table, dict, key, j, value);
      MapSizes(dict, key, value);
      SnapshotAt(repr, node);
      WriteValue(node, value);
      assert heads == heads[idx := heads[idx]];
      table := table[idx := c'];
      dict := dict[key := value];
    }

    /** Drops the first node of slot `idx`. */
    method Behead(idx: nat, key: CString)
      requires Valid() && idx == Slot(key, |table|) && table[idx] != [] && table[idx][0].1.key == key
      modifies nodes, this`table, this`dict, this`count
      ensures Valid() && dict == old(dict) - {key} && count == old(count) - 1
    {
      hide Sound, KeysDistinct, Slot, Represents, AllStored, Stored, SizeOk, Snapshot;
      ghost var c, mem, heads := table[idx], Snapshot(repr), nodes[..];
      StoredAt(table, heads, mem, idx);
      CellAt(c, heads[idx], mem, 0);
      BeheadStored(table, heads, mem, idx);
      RemoveChain(table, dict, key, 0);
      MapSizes(dict, key, []);
      SnapshotAt(repr, nodes[idx]);
      nodes[idx] := nodes[idx].next;
      assert nodes[..] == heads[idx := HeadAt(c, 1)];
      assert c[..0] + c[1..] == c[1..];
      table := table[idx := c[1..]];
      dict := dict - {key};
      count := count - 1;
    }

    /** Drops the node after `cur`, which is at position `j` of slot `idx`. */
    method Bypass(idx: nat, ghost j: nat, cur: HashNode, key: CString)
      requires Valid() && idx == Slot(key, |table|) && j + 1 < |table[idx]|
      requires table[idx][j].0 == cur && table[idx][j + 1].1.key == key
      modifies cur`next, this`table, this`dict, this`count
      ensures Valid() && dict == old(dict) - {key} && count == old(count) - 1
    {
      hide Sound, KeysDistinct, Slot, Represents, AllStored, Stored, SizeOk, Snapshot;
      ghost var c, mem, heads := table[idx], Snapshot(repr), nodes[..];
      ghost var cell, c' := Cell(c[j].1, HeadAt(c, j + 2)), c[..j + 1] + c[j + 2..];
      StoredAt(table, heads, mem, idx);
      CellAt(c, heads[idx], mem, j);
      CellAt(c, heads[idx], mem, j + 1);
      SnapshotAt(repr, cur);
      BypassStored(c, heads[idx], mem, j);
      SlotAt(table, idx, j);
      RewriteStored(table, heads, mem, cur, cell, idx, c', heads[idx]);
      RemoveChain(table, dict, key, j + 1);
      MapSizes(dict, key, []);
      var tmp := cur.next;
      SnapshotAt(repr, tmp);
      WriteNext(cur, tmp.next);
      assert heads == heads[idx := heads[idx]];
      table := table[idx := c'];
      dict := dict - {key};
      count := count - 1;
    }

    /** Hangs a new node before the chain of slot `idx`. */
    method Push(idx: nat, key: CString, value: CString)
      requires Valid() && idx == Slot(key, |table|) && Absent(table[idx], key)
      requires 10 * (count + 1) <= 7 * maxSlots
      modifies nodes, this`table, this`dict, this`repr, this`count
      ensures Valid() && dict == old(dict)[key := value] && key !in old(dict)
      ensures fresh(repr - old(repr)) && count == old(count) + 1
    {
      hide Sound, Slot, Represents, AllStored, SizeOk, Snapshot;
      ghost var c, mem, heads := table[idx], Snapshot(repr), nodes[..];
      AbsentKey(table, dict, key);
      MapSizes(dict, key, value);
      var newNode := HangNew(idx, key, value);
      ghost var x, cell := (newNode, Entry(key, value)), Cell(Entry(key, value), heads[idx]);
      ExtendStored(table, heads, mem, newNode, cell, idx, x);
      PushChain(table, dict, key, x);
      count := count + 1;
      table := table[idx := [x] + c];
      dict := dict[key := value];
    }

    /** MODIFY: overwrites an existing binding, without taking the mutex. */
    method Modify(key: CString, value: CString) returns (ret: int)
      requires Valid()
      modifies repr`value, this`table, this`dict
      ensures Valid()
      ensures ret == if key in old(dict) then 0 else -1
      ensures dict == if ret == 0 then old(dict)[key := value] else old(dict)
    {
      hide Represents, Sound, Slot, AllStored, SizeOk;
      var idx := Hash(key, maxSlots);
      var node, j := Scan(idx, key);
      AbsentKey(table, dict, key);
      if node != null {
        Overwrite(idx, j, node, key, value);
        return 0;
      }
      ret := -1;
    }

    /** DELETE: removes a binding.  A key whose bucket is empty returns with the mutex held. */
    method Delete(key: CString) returns (ret: int)
      requires Valid() && !locked
      modifies this`count, this`locked, this`table, this`dict, nodes, repr`next
      ensures Valid() && dict == old(dict) - {key}
      ensures ret == if key in old(dict) then 0 else -1
      ensures locked <==> old(table)[Slot(key, old(|table|))] == []
      ensures maxSlots == old(maxSlots)
    {
      hide Valid, Linked, Slot;
      LookFor(key);
      var idx := Hash(key, maxSlots);
      locked := true;
      var head := nodes[idx];
      if head == null {
        return -1;
      }
      StrCmpEqual(head.key, key);
      if StrCmp(head.key, key) == 0 {
        Behead(idx, key);
        locked := false;
        return 0;
      }
      var cur, j := ScanPrev(idx, key);
      if cur.next == null {
        locked := false;
        return -1;
      }
      Bypass(idx, j, cur, key);
      locked := false;
      ret := 0;
    }

    /** Walks the chain of slot `idx` to the node before the one with `key`, or to its end. */
    method ScanPrev(idx: nat, key: CString) returns (cur: HashNode, ghost j: nat)
      requires Linked() && idx < |table| && table[idx] != [] && table[idx][0].1.key != key
      ensures Linked() && cur in repr && j < |table[idx]| && cur == table[idx][j].0
      ensures cur.next == null ==> Absent(table[idx], key)
      ensures cur.next != null ==> j + 1 < |table[idx]| && table[idx][j + 1].1.key == key
    {
      hide Sound, AllStored, Snapshot;
      ghost var c, mem := table[idx], Snapshot(repr);
      StoredAt(table, nodes[..], mem, idx);
      cur, j := nodes[idx], 0;
      SnapshotAt(repr, cur);
      while cur.next != null
        invariant Linked() && Snapshot(repr) == mem
        invariant 0 <= j < |c| && cur == c[j].0 && cur in repr && cur.next == HeadAt(c, j + 1)
        invariant forall i :: 0 <= i <= j ==> c[i].1.key != key
        decreases |c| - j
      {
        SnapshotAt(repr, cur.next);
        StrCmpEqual(cur.next.key, key);
        if StrCmp(cur.next.key, key) == 0 {
          break;
        }
        cur := cur.next;
        j := j + 1;
      }
    }
  }
}
